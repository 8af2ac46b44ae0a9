/**
 * The arena the players fight in (MMO/Arena.cs): a roster of player
 * references, an attack log, and two views derived from the players' current
 * hit points.
 */
module MMOArena {
  import opened Wrappers
  import opened MMOJugador

  /** One entry of the attack log (MMO/RegistroDeAtaque.cs). */
  datatype RegistroDeAtaque = RegistroDeAtaque(VictimaId: Option<string>, Dano: int)

  /** `s` is `t` with some entries dropped and the rest kept in order. */
  ghost predicate Subsequence<T>(s: seq<T>, t: seq<T>)
    decreases t
  {
    if s == [] then true
    else if t == [] then false
    else (s[0] == t[0] && Subsequence(s[1..], t[1..])) || Subsequence(s, t[1..])
  }

  /**
   * `Where(jugador => jugador.EstaVivo)`: the living entries of `js`, in their
   * order, every occurrence of a living player kept and no dead one.
   */
  function Vivos(js: seq<Jugador>): (r: seq<Jugador>)
    reads js
    ensures |r| <= |js|
    ensures forall j :: j in r ==> j in js && j.EstaVivo()
  {
    if js == [] then []
    else if js[0].EstaVivo() then [js[0]] + Vivos(js[1..])
    else Vivos(js[1..])
  }

  /**
   * The filter is exact: it keeps the roster order, drops every dead entry and
   * keeps every occurrence of a living one.
   */
  lemma {:induction false} VivosExact(js: seq<Jugador>)
    ensures Subsequence(Vivos(js), js)
    ensures multiset(Vivos(js)) <= multiset(js)
    ensures forall j :: j in js && j.EstaVivo() ==> multiset(Vivos(js))[j] == multiset(js)[j]
    decreases js
  {
    if js != [] {
      VivosExact(js[1..]);
      assert js == [js[0]] + js[1..];
    }
  }

  /** The hit points of the roster entries, in order: a snapshot of the heap. */
  function HpsOf(js: seq<Jugador>): (hps: seq<int>)
    reads js
    ensures |hps| == |js|
    ensures forall i :: 0 <= i < |js| ==> hps[i] == js[i].Hp
  {
    if js == [] then [] else [js[0].Hp] + HpsOf(js[1..])
  }

  /** How many of the given hit points belong to a living player. */
  function CountAlive(hps: seq<int>): nat {
    if hps == [] then 0 else (if hps[0] > 0 then 1 else 0) + CountAlive(hps[1..])
  }

  /** The filter keeps exactly one entry per living roster entry. */
  lemma {:induction false} VivosCount(js: seq<Jugador>)
    ensures |Vivos(js)| == CountAlive(HpsOf(js))
  {
    if js != [] {
      assert HpsOf(js)[1..] == HpsOf(js[1..]);
      VivosCount(js[1..]);
    }
  }

  /** Filtering a concatenation filters each part. */
  lemma {:induction false} VivosAppend(a: seq<Jugador>, b: seq<Jugador>)
    ensures Vivos(a + b) == Vivos(a) + Vivos(b)
  {
    if a == [] {
      assert a + b == b;
    } else {
      assert (a + b)[1..] == a[1..] + b;
      VivosAppend(a[1..], b);
    }
  }

  /** No living entry at all. */
  lemma {:induction false} NoneAlive(hps: seq<int>)
    ensures CountAlive(hps) == 0 <==> forall i :: 0 <= i < |hps| ==> hps[i] <= 0
  {
    if hps != [] {
      NoneAlive(hps[1..]);
      assert forall i :: 1 <= i < |hps| ==> hps[i] == hps[1..][i - 1];
    }
  }

  /** At most one living entry: no two distinct entries are both alive. */
  lemma {:induction false} AtMostOneAlive(hps: seq<int>)
    ensures CountAlive(hps) <= 1 <==>
              forall i, k :: 0 <= i < k < |hps| ==> hps[i] <= 0 || hps[k] <= 0
  {
    if hps != [] {
      var rest := hps[1..];
      AtMostOneAlive(rest);
      NoneAlive(rest);
      assert forall i :: 1 <= i < |hps| ==> hps[i] == rest[i - 1];
      if CountAlive(hps) > 1 && hps[0] > 0 {
        var k :| 0 <= k < |rest| && rest[k] > 0;
        assert hps[k + 1] > 0;
      } else if CountAlive(hps) > 1 {
        var i, k :| 0 <= i < k < |rest| && rest[i] > 0 && rest[k] > 0;
        assert hps[i + 1] > 0 && hps[k + 1] > 0;
      }
    }
  }

  /** Lowering hit points never adds a living entry. */
  lemma {:induction false} CountAliveMonotone(before: seq<int>, after: seq<int>)
    requires |before| == |after|
    requires forall i :: 0 <= i < |after| ==> after[i] <= before[i]
    ensures CountAlive(after) <= CountAlive(before)
  {
    if after != [] {
      CountAliveMonotone(before[1..], after[1..]);
    }
  }

  class Arena {
    /** The players currently in the arena; duplicates are not checked for. */
    var Jugadores: seq<Jugador>
    /** The attack records; the property's setter may replace the whole log. */
    var LogDeAtaque: seq<RegistroDeAtaque>

    /** A new arena: no players and an empty log, so the battle counts as over. */
    constructor ()
      ensures Jugadores == [] && LogDeAtaque == []
      ensures JugadoresVivos() == [] && BatallaTerminada()
    {
      Jugadores := [];
      LogDeAtaque := [];
    }

    /** The players that are still alive, in roster order. */
    function JugadoresVivos(): (r: seq<Jugador>)
      reads this, Jugadores
      ensures |r| == CountAlive(HpsOf(Jugadores)) <= |Jugadores|
      ensures forall j :: j in r ==> j in Jugadores && j.EstaVivo()
    {
      VivosCount(Jugadores);
      Vivos(Jugadores)
    }

    /** The battle is over when at most one roster entry is still alive. */
    predicate BatallaTerminada()
      reads this, Jugadores
      ensures BatallaTerminada() <==>
                forall i, k :: 0 <= i < k < |Jugadores| ==>
                  !Jugadores[i].EstaVivo() || !Jugadores[k].EstaVivo()
    {
      AtMostOneAlive(HpsOf(Jugadores));
      |JugadoresVivos()| <= 1
    }

    /** `Jugadores.AddRange(js)`: appends to the roster in place. */
    method AddRange(js: seq<Jugador>)
      modifies this`Jugadores
      ensures Jugadores == old(Jugadores) + js
      ensures JugadoresVivos() == old(JugadoresVivos()) + Vivos(js)
    {
      VivosAppend(Jugadores, js);
      Jugadores := Jugadores + js;
    }
  }

  /**
   * Once at most one roster entry is alive it stays so while the roster is
   * unchanged and no hit points rise, which is all an attack can do.
   */
  twostate lemma BatallaTerminadaPersists(a: Arena)
    requires old(a.BatallaTerminada())
    requires a.Jugadores == old(a.Jugadores)
    requires forall i :: 0 <= i < |a.Jugadores| ==> a.Jugadores[i].Hp <= old(a.Jugadores[i].Hp)
    ensures a.BatallaTerminada()
  {
    var before := old(HpsOf(a.Jugadores));
    var after := HpsOf(a.Jugadores);
    CountAliveMonotone(before, after);
    VivosCount(a.Jugadores);
    assert old(|a.JugadoresVivos()|) == CountAlive(before) by {
      VivosCount(old(a.Jugadores));
    }
  }

  /** Two reads with only unrelated state changed in between see the same living players. */
  twostate lemma JugadoresVivosStable(a: Arena)
    requires a.Jugadores == old(a.Jugadores)
    requires forall i :: 0 <= i < |a.Jugadores| ==> a.Jugadores[i].Hp == old(a.Jugadores[i].Hp)
    ensures a.JugadoresVivos() == old(a.JugadoresVivos())
  {
    StableVivos(a.Jugadores);
  }

  twostate lemma {:induction false} StableVivos(js: seq<Jugador>)
    requires forall i :: 0 <= i < |js| ==> js[i].Hp == old(js[i].Hp)
    ensures Vivos(js) == old(Vivos(js))
    decreases js
  {
    if js != [] {
      StableVivos(js[1..]);
    }
  }
}
