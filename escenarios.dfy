/**
 * Five of the unit tests of MMO.Test, written as clients of the model: each
 * method builds the objects a test builds, performs its actions through the
 * model's operations, and states in its postcondition what the test checks
 * (or, where `Attack` as written does not meet the test, what happens
 * instead). The two `TestIfItInitializesCorrectly` tests are the
 * constructors' postconditions. The last two methods are not tests: they
 * show what an attack does to a finished battle.
 */
module Escenarios {
  import opened Wrappers
  import opened MMOJugador
  import opened MMOArena

  /** `new Jugador { Id = id, Hp = hp }`: the constructor, then the two setters. */
  method NuevoJugador(id: Option<string>, hp: Int32) returns (j: Jugador)
    ensures fresh(j)
    ensures j.Id == id && j.Nombre == None && j.Hp == hp
  {
    j := new Jugador();
    j.Id, j.Hp := id, hp;
  }

  /** JugadorTest.TestIfJugadorPuedeAtacar: one attack on a victim at 100 hit points. */
  method JugadorPuedeAtacar(damage: int) returns (victima: Jugador)
    requires IsDamage(damage)
    ensures 80 <= victima.Hp < 100
  {
    var agresor := new Jugador();
    victima := new Jugador();
    victima.Hp := 100;
    agresor.Attack(victima, damage);
  }

  /**
   * JugadorTest.TestIfItNeverHasNegativeHp: ten attacks on a victim at 0 hit
   * points. `Attack` as written does not clamp, so the hit points end at -10 or
   * below, where the test expects at least 0.
   */
  method NuncaTieneHpNegativo(damages: seq<int>) returns (victima: Jugador)
    requires |damages| == 10
    requires forall i :: 0 <= i < |damages| ==> IsDamage(damages[i])
    ensures victima.Hp == HpAfterAttacks(0, damages)
    ensures -200 <= victima.Hp <= -10
  {
    var agresor := new Jugador();
    victima := new Jugador();
    var i := 0;
    while i < 10
      invariant 0 <= i <= 10
      invariant victima.Hp == HpAfterAttacks(0, damages[..i])
    {
      agresor.Attack(victima, damages[i]);
      HpAfterAttacksAppend(0, damages[..i], [damages[i]]);
      assert damages[..i + 1] == damages[..i] + [damages[i]];
      i := i + 1;
    }
    assert damages[..10] == damages;
    TotalDamageBounds(damages);
    HpAfterAttacksBounds(0, damages);
  }

  /** JugadorTest.TestIfItKnowsWhenItsDeadOrAlive: alive at 1 hit point, dead at 0. */
  method SabeSiEstaVivo() returns (antes: bool, despues: bool)
    ensures antes && !despues
  {
    var target := new Jugador();
    target.Hp := 1;
    antes := target.EstaVivo();
    target.Hp := 0;
    despues := target.EstaVivo();
  }

  /** The filter on the arena test's roster: the two dead entries first, then the two living ones. */
  lemma DosMuertosDosVivos(m1: Jugador, m2: Jugador, v1: Jugador, v2: Jugador)
    requires !m1.EstaVivo() && !m2.EstaVivo() && v1.EstaVivo() && v2.EstaVivo()
    ensures Vivos([m1, m2, v1, v2]) == [v1, v2]
  {
    assert [v2][1..] == [];
    assert Vivos([v2]) == [v2];
    assert [v1, v2][1..] == [v2];
    assert Vivos([v1, v2]) == [v1, v2];
    assert [m2, v1, v2][1..] == [v1, v2];
    assert Vivos([m2, v1, v2]) == [v1, v2];
    assert [m1, m2, v1, v2][1..] == [m2, v1, v2];
  }

  /** ArenaTest.TestIfItKnowsWhatPlayersAreAlive: two dead, two alive, ids repeated. */
  method SabeQueJugadoresEstanVivos() returns (vivos: seq<Jugador>)
    ensures |vivos| == 2
    ensures forall j :: j in vivos ==> j.Id == Some("vivo")
  {
    var m1 := NuevoJugador(Some("muerto"), 0);
    var m2 := NuevoJugador(Some("muerto"), 0);
    var v1 := NuevoJugador(Some("vivo"), 1);
    var v2 := NuevoJugador(Some("vivo"), 1);
    var target := new Arena();
    target.AddRange([m1, m2, v1, v2]);
    DosMuertosDosVivos(m1, m2, v1, v2);
    vivos := target.JugadoresVivos();
    assert vivos == [v1, v2];
  }

  /** ArenaTest.TestIfItKnowsWhenTheBattleIsOver: two alive, then both at 0. */
  method SabeCuandoTerminaLaBatalla() returns (antes: bool, despues: bool)
    ensures !antes && despues
  {
    var target := new Arena();
    var a := new Jugador();
    a.Hp := 1;
    var b := new Jugador();
    b.Hp := 1;
    target.AddRange([a, b]);
    antes := target.BatallaTerminada();
    target.Jugadores[0].Hp := 0;
    target.Jugadores[1].Hp := 0;
    despues := target.BatallaTerminada();
  }

  /**
   * An attack, on anyone, leaves a finished battle finished, unless it takes
   * the victim's hit points below the least `int`.
   */
  method AtaqueTrasBatallaTerminada(arena: Arena, agresor: Jugador, victima: Jugador, damage: int)
    requires IsDamage(damage)
    requires victima.Hp - damage >= MinInt32
    requires arena.BatallaTerminada()
    modifies victima`Hp
    ensures arena.BatallaTerminada()
  {
    agresor.Attack(victima, damage);
    BatallaTerminadaPersists(arena);
  }

  /**
   * The exception to the above: a one-point attack on a victim at the least
   * `int` wraps its hit points to the greatest `int`, and a battle that was
   * over, with only the attacker alive, is no longer over.
   */
  method AtaqueDesbordaHp() returns (antes: bool, despues: bool, hp: int)
    ensures antes && !despues && hp == MaxInt32
  {
    var agresor := NuevoJugador(None, 1);
    var victima := NuevoJugador(None, MinInt32);
    var arena := new Arena();
    arena.AddRange([agresor, victima]);
    antes := arena.BatallaTerminada();
    assert antes by {
      assert !arena.Jugadores[1].EstaVivo();
    }
    agresor.Attack(victima, 1);
    hp := victima.Hp;
    assert hp == MaxInt32;
    despues := arena.BatallaTerminada();
    assert !despues by {
      assert arena.Jugadores[0].EstaVivo() && arena.Jugadores[1].EstaVivo();
    }
  }
}
