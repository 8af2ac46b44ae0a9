/**
 * A player on the battlefield (MMO/Jugador.cs): an id assigned by the
 * document store, a display name and hit points that attacks lower in place.
 */
module MMOJugador {
  import opened Wrappers
  import opened Formato

  /** `random.Next(1, 21)`: the lowest damage and the exclusive upper bound. */
  const MinDamage: int := 1
  const DamageBound: int := 21

  /** A damage value the attack's random draw can produce. */
  predicate IsDamage(d: int) { MinDamage <= d < DamageBound }

  const MinInt32: int := -0x8000_0000
  const MaxInt32: int := 0x7fff_ffff

  /** The values of a C# `int`. */
  type Int32 = x: int | MinInt32 <= x <= MaxInt32

  /** C# `int` arithmetic in an unchecked context: the result modulo 2^32. */
  function Wrap32(x: int): (r: Int32)
    ensures MinInt32 <= x <= MaxInt32 ==> r == x
    ensures MinInt32 - 0x1_0000_0000 <= x < MinInt32 ==> r == x + 0x1_0000_0000
    ensures (r - x) % 0x1_0000_0000 == 0
  {
    (x - MinInt32) % 0x1_0000_0000 + MinInt32
  }

  class Jugador {
    /** The document id; null until the store assigns one. */
    var Id: Option<string>
    /** The in-game name; null unless set. */
    var Nombre: Option<string>
    /**
     * Hit points. Documented as never negative, but `Attack` does not keep
     * that promise, so the model does not assume it.
     */
    var Hp: Int32

    /** `new Jugador()`: every property at its C# default. */
    constructor ()
      ensures Id == None && Nombre == None && Hp == 0
    {
      Id := None;
      Nombre := None;
      Hp := 0;
    }

    /** A player is alive while it has hit points left. */
    predicate EstaVivo()
      reads this
    {
      Hp > 0
    }

    /**
     * Lowers the victim's hit points by the drawn damage, with no clamping at
     * zero and with `int` wrap-around below the least `int`. The victim may be
     * the attacker itself.
     */
    method Attack(victim: Jugador, damage: int)
      requires IsDamage(damage)
      modifies victim`Hp
      ensures victim.Hp == Wrap32(old(victim.Hp) - damage)
      ensures old(victim.Hp) - damage >= MinInt32 ==>
                victim.Hp == old(victim.Hp) - damage &&
                old(victim.Hp) - 20 <= victim.Hp < old(victim.Hp) &&
                (old(victim.Hp) < damage ==> victim.Hp < 0)
      ensures old(victim.Hp) - damage < MinInt32 ==>
                victim.Hp == old(victim.Hp) - damage + 0x1_0000_0000 && victim.Hp > MaxInt32 - 20
      ensures victim.Id == old(victim.Id) && victim.Nombre == old(victim.Nombre)
      ensures this != victim ==> unchanged(this)
    {
      victim.Hp := Wrap32(victim.Hp - damage);
    }

    /**
     * `Jugador { id:'<Id>', nombre:'<Nombre>', hp:<Hp> }`, a null id or name
     * printing as nothing. For quote-free ids and names the text determines
     * all three values.
     */
    function ToString(): (s: string)
      reads this
      ensures Prefijo <= s
      ensures QuoteFree(OrEmpty(Id)) && QuoteFree(OrEmpty(Nombre)) ==>
                ParseJugador(s) == Some(Campos(OrEmpty(Id), OrEmpty(Nombre), Hp))
    {
      RenderRoundTrip(OrEmpty(Id), OrEmpty(Nombre), Hp);
      Render(OrEmpty(Id), OrEmpty(Nombre), Hp)
    }
  }

  /** Hit points left after a series of attacks with the given damages, in order. */
  function HpAfterAttacks(hp: Int32, damages: seq<int>): Int32
    decreases damages
  {
    if damages == [] then hp else HpAfterAttacks(Wrap32(hp - damages[0]), damages[1..])
  }

  /** The total damage of a series of attacks. */
  function TotalDamage(damages: seq<int>): int {
    if damages == [] then 0 else damages[0] + TotalDamage(damages[1..])
  }

  /** n valid draws deal between n and 20n damage in total. */
  lemma {:induction false} TotalDamageBounds(damages: seq<int>)
    requires forall i :: 0 <= i < |damages| ==> IsDamage(damages[i])
    ensures |damages| <= TotalDamage(damages) <= 20 * |damages|
    decreases damages
  {
    if damages != [] {
      TotalDamageBounds(damages[1..]);
    }
  }

  /**
   * After n attacks whose total damage does not cross the least `int`, the
   * hit points are lowered by exactly the total damage, so they lie between
   * old - 20n and old - n.
   */
  lemma {:induction false} HpAfterAttacksBounds(hp: Int32, damages: seq<int>)
    requires forall i :: 0 <= i < |damages| ==> IsDamage(damages[i])
    requires hp - TotalDamage(damages) >= MinInt32
    ensures HpAfterAttacks(hp, damages) == hp - TotalDamage(damages)
    ensures hp - 20 * |damages| <= HpAfterAttacks(hp, damages) <= hp - |damages|
    decreases damages
  {
    TotalDamageBounds(damages);
    if damages != [] {
      TotalDamageBounds(damages[1..]);
      HpAfterAttacksBounds(hp - damages[0], damages[1..]);
    }
  }

  /** Running attacks one after another: the series splits at any point. */
  lemma {:induction false} HpAfterAttacksAppend(hp: Int32, first: seq<int>, rest: seq<int>)
    ensures HpAfterAttacks(hp, first + rest) == HpAfterAttacks(HpAfterAttacks(hp, first), rest)
    decreases first
  {
    if first != [] {
      assert (first + rest)[1..] == first[1..] + rest;
      HpAfterAttacksAppend(Wrap32(hp - first[0]), first[1..], rest);
    } else {
      assert first + rest == rest;
    }
  }
}
