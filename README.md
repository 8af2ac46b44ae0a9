# MMO battle model

A Dafny model of the in-memory battle core of the `MMO` library. Players
(`Jugador`) carry hit points that an attack lowers in place. An arena
(`Arena`) holds a roster of player references and an attack log. It derives
the living players and whether the battle is over.

Modules:

- `Wrappers` (wrappers.dfy): `Option`, standing in for a C# reference that may be null. `OrEmpty` gives what `string.Format` prints for such a string.
- `Formato` (formato.dfy): the text `Jugador.ToString` produces, and a parser that reads it back.
- `MMOJugador` (jugador.dfy): the `Jugador` class with `Id`, `Nombre` and `Hp` as fields. It has `Attack`, `ToString` and `EstaVivo`. Beside it are the C# `int` range with its wrap-around, and the hit points after a series of attacks.
- `MMOArena` (arena.dfy): the `RegistroDeAtaque` log entry and the `Arena` class with `Jugadores` and `LogDeAtaque` as fields. `JugadoresVivos` and `BatallaTerminada` are functions over the current heap. The filter behind `JugadoresVivos` is a separate function, `Vivos`.
- `Escenarios` (escenarios.dfy): five of the unit tests of `MMO.Test` as client methods. Each builds the test's objects, acts through the model's operations and states the outcome. The two `TestIfItInitializesCorrectly` tests are the constructors' postconditions. `TestIfItProducesACorrectLog` and `TestIfItUpdatesStatisticsCorrectly` are left out. Two further methods are not tests: `AtaqueTrasBatallaTerminada` and `AtaqueDesbordaHp` show what an attack does to a finished battle.

How the model follows the code:

- The damage drawn by `random.Next(1, 21)` is a parameter of `Attack` with `1 <= damage <= 20`.
- `Attack` subtracts the damage with no clamping. The doc comment on `Hp` says it is at least 0, but `Attack` does not keep that, and the model does not assume it. An attack on a victim with fewer hit points than the damage leaves them negative, unless the subtraction crosses the least `int`.
- `Hp` is a C# `int`. In C#'s default unchecked context, `victim.Hp -= damage` wraps to a large positive value when it would go below the least `int`. The model writes this out (`Wrap32`). The "hit points only go down" and "a finished battle stays finished" properties are therefore stated for attacks that do not cross the least `int`. `Escenarios.AtaqueDesbordaHp` shows the exception: a wrap revives a player and reopens a finished battle.
- `EstaVivo` is used by `Arena` and by the tests but is not defined in `Jugador.cs`. It is modelled as `Hp > 0`, which is what the tests check.
- `BatallaTerminada` counts roster ENTRIES, as `Where(...).ToArray().Length` does. The roster does not check for duplicates, so the same living player listed twice counts as two living entries.
- A null `Id` or `Nombre` prints as nothing in `ToString`, as `string.Format` prints a null argument.
- The tests call `Ataca`, which returns a `RegistroDeAtaque`. MMO/Jugador.cs defines no `Ataca`, so the scenarios use `Attack` instead. With `Attack` as written, the test at MMO.Test/JugadorTest.cs:74-92 would not hold: ten attacks on a player at 0 hit points end at -10 or below (`Escenarios.NuncaTieneHpNegativo`).
- The tests expect more than `Attack` does. MMO.Test/JugadorTest.cs:65-71 expects `Ataca` to return a log entry with an `AgresorId`. Lines 74-92 expect `Hp` never to go below 0. Lines 113-150 expect kill, death and damage statistics. MMO/Jugador.cs does none of this, and the model follows the code: `RegistroDeAtaque` has only `VictimaId` and `Dano`, and `Attack` writes no log entry.

## Model

| member | source | states |
|---|---|---|
| `MMOJugador.Wrap32` | MMO/Jugador.cs:48 | the result is a C# `int`, congruent to its argument modulo 2^32; in range it is the argument, just below the range it is the argument plus 2^32 |
| `MMOJugador.Jugador.constructor` | MMO/Jugador.cs:15-39 | a new player has a null id, a null name and 0 hit points |
| `MMOJugador.Jugador.Attack` | MMO/Jugador.cs:45-49 | the victim's hit points become their old value minus the damage, wrapped as C# `int`. Without a wrap they drop by 1 to 20 and go negative when the damage exceeds them; with a wrap they land near the greatest `int`. The ids and names of both players are unchanged, and so is the attacker unless it is the victim |
| `MMOJugador.Jugador.ToString` | MMO/Jugador.cs:51-54 | the text starts `Jugador { id:'`; for quote-free id and name, parsing it gives back exactly the id, the name and the hit points, a null id or name reading back as "" (`OrEmpty`), as `string.Format` prints a null argument. Since the parser accepts only renderings (`Formato.ParseJugadorExact`), this fixes the exact text |
| `MMOJugador.TotalDamageBounds` | MMO/Jugador.cs:47 | n draws from `Next(1, 21)` deal between n and 20n damage in total |
| `MMOJugador.HpAfterAttacksBounds` | MMO/Jugador.cs:47-48 | n attacks whose total damage does not cross the least `int` lower the hit points by exactly that total, so the result lies in [old - 20n, old - n] |
| `MMOJugador.HpAfterAttacksAppend` | MMO/Jugador.cs:48 | attacking with one series and then another equals attacking with their concatenation |
| `Formato.NatRoundTrip` | MMO/Jugador.cs:53 | the decimal digits of a natural number read back as that number |
| `Formato.IntRoundTrip` | MMO/Jugador.cs:53 | an `int` written as `string.Format` writes it (a minus sign, then digits) parses back to the same `int` |
| `Formato.ParseIntCanonical` | MMO/Jugador.cs:53 | the parser accepts only the text `string.Format` writes: any text that parses to an `int` is exactly that `int`'s decimal form, with no leading zeros and no "-0" |
| `Formato.RenderRoundTrip` | MMO/Jugador.cs:53 | the `Jugador { id:'…', nombre:'…', hp:… }` text of quote-free strings parses back to the same id, name and hit points |
| `Formato.ParseJugadorExact` | MMO/Jugador.cs:53 | the parser accepts only the text `string.Format` writes: anything it reads as a player is exactly the rendering of the id, name and hit points it read, and that id and name are quote-free |
| `MMOArena.Vivos` | MMO/Arena.cs:34 | the filter's result is no longer than the roster, and every entry in it is a roster member that is alive |
| `MMOArena.VivosExact` | MMO/Arena.cs:34 | the filter keeps the roster order (a subsequence), never adds an entry, and keeps every occurrence of every living player; with `Vivos` this pins the result down exactly |
| `MMOArena.VivosCount` | MMO/Arena.cs:34 | the number of living players equals the number of roster entries with positive hit points |
| `MMOArena.VivosAppend` | MMO/Arena.cs:34 | the living players of two concatenated rosters are those of the first followed by those of the second |
| `MMOArena.NoneAlive` | MMO/Arena.cs:46 | no entry is counted alive iff every entry has hit points of at most 0 |
| `MMOArena.AtMostOneAlive` | MMO/Arena.cs:46 | at most one entry is counted alive iff no two distinct entries both have positive hit points |
| `MMOArena.CountAliveMonotone` | MMO/Arena.cs:46 | lowering hit points entry by entry never increases the number of living entries |
| `MMOArena.Arena.constructor` | MMO/Arena.cs:10-14 | a new arena has an empty roster and an empty log, so no one is alive and the battle counts as over |
| `MMOArena.Arena.JugadoresVivos` | MMO/Arena.cs:30-36 | as many entries as the roster has living entries, at most the roster's length, each a living roster member |
| `MMOArena.Arena.BatallaTerminada` | MMO/Arena.cs:42-48 | the battle is over iff no two distinct roster entries are both alive |
| `MMOArena.Arena.AddRange` | MMO/Arena.cs:20-24 | adding players appends them to the roster and their living ones to the living players; the log is untouched |
| `MMOArena.BatallaTerminadaPersists` | MMO/Arena.cs:46 | if the battle was over and, with the same roster, no hit points went up, it is still over |
| `MMOArena.JugadoresVivosStable` | MMO/Arena.cs:30-36 | two reads of the living players agree whenever the roster and its hit points are unchanged between them |
| `Escenarios.JugadorPuedeAtacar` | MMO.Test/JugadorTest.cs:26-47 | one attack on a victim at 100 leaves it below 100 (and at least 80) |
| `Escenarios.NuncaTieneHpNegativo` | MMO.Test/JugadorTest.cs:74-92 | ten attacks on a victim at 0 leave it at exactly 0 minus their total, between -200 and -10, not at or above 0 as the test expects |
| `Escenarios.SabeSiEstaVivo` | MMO.Test/JugadorTest.cs:94-111 | `MMOJugador.Jugador.EstaVivo` (defined as `Hp > 0`) holds of a player at 1 hit point and not at 0 |
| `Escenarios.SabeQueJugadoresEstanVivos` | MMO.Test/ArenaTest.cs:25-41 | with two dead and two living players (ids repeated) the living players are exactly the two with id `vivo` |
| `Escenarios.SabeCuandoTerminaLaBatalla` | MMO.Test/ArenaTest.cs:43-61 | two players at 1 hit point: not over; both set to 0: over |
| `Escenarios.AtaqueTrasBatallaTerminada` | MMO/Arena.cs:42-48 | an attack on any player that does not cross the least `int` leaves a finished battle finished |
| `Escenarios.AtaqueDesbordaHp` | MMO/Jugador.cs:48 | a 1-point attack on a victim at the least `int` wraps it to the greatest `int` and makes a finished battle unfinished |

## Left out

- The shared static `Random` (MMO/Jugador.cs:9) is left out. The draw is the `damage` parameter of `Attack`, limited to the range `Next(1, 21)` produces. Its distribution and thread safety are not modelled.
- `ToString` assumes the current culture writes negative numbers with a leading `-`. Other cultures' negative signs are not modelled.
- `ToString`'s round trip is stated only for ids and names without a `'`. With a quote inside, the text is ambiguous.
- `LogDeAtaque` is a plain field. Its C# setter is ordinary field assignment, and nothing in the repository writes to it after the constructor (MMO/Arena.cs:13).
- Null references are not modelled: Dafny's object types are non-null. In C#, `Attack(null)` throws a NullReferenceException at MMO/Jugador.cs:48, a null entry in `Jugadores` makes the `EstaVivo` lambda at MMO/Arena.cs:34 throw (and with it `BatallaTerminada`), `Jugadores.AddRange(null)` throws an ArgumentNullException, and `LogDeAtaque` (MMO/Arena.cs:54-58) can be set to null. Likewise a build with overflow checking turned on would throw an OverflowException where the model wraps; no project file in the repository settles which context is used, and the model assumes C#'s default unchecked one.
- Of the `List` operations callers can use on `Jugadores`, only `AddRange` (used by the tests) is modelled. Assigning through the indexer to a player's `Hp` is ordinary field assignment.
- `StatsGlobales` and `RegistroDeDano` hold data and have no behaviour. No modelled operation uses them.
- `Ataca`, `Estadisticas` and `Batallas` are used by the tests, but MMO/Jugador.cs defines none of them, so they are left out. `Jugador` is not declared `partial`, so its two properties `Estadisticas` and `Batallas` cannot be defined in another file. So are the attacker id of a log entry, clamping, and kill/death counting.
- RavenDB setup, sessions, queries and console output (RavenDbSetupExample/Program.cs) are database I/O outside the core.
- `PlayerSimulator` (RavenDbTransactionsExample/PlayerSimulator.cs) has no loop, and its purpose is concurrent agents against a document store. Concurrency and the store are not modelled.
