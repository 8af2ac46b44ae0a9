/**
 * The text that `Jugador.ToString` produces, and a parser that reads it back.
 *
 * The format is `Jugador { id:'<Id>', nombre:'<Nombre>', hp:<Hp> }` with
 * `Hp` written in decimal, a leading `-` when negative.
 */
module Formato {
  import opened Wrappers

  /** The three values a rendering carries. */
  datatype Campos = Campos(id: string, nombre: string, hp: int)

  const Prefijo: string := "Jugador { id:'"
  const SepNombre: string := "', nombre:'"
  const SepHp: string := "', hp:"
  const Cierre: string := " }"

  predicate IsDigit(c: char) { '0' <= c <= '9' }

  predicate AllDigits(s: string) {
    |s| > 0 && forall i :: 0 <= i < |s| ==> IsDigit(s[i])
  }

  function DigitChar(d: nat): (c: char)
    requires d < 10
    ensures IsDigit(c)
  {
    (('0' as int) + d) as char
  }

  function DigitValue(c: char): (d: nat)
    requires IsDigit(c)
    ensures d < 10 && DigitChar(d) == c
  {
    (c as int) - ('0' as int)
  }

  /** Decimal digits with no leading zero: the only way each number is written. */
  predicate Canonical(s: string) {
    AllDigits(s) && (|s| > 1 ==> s[0] != '0')
  }

  /** Decimal digits of `n`, most significant first, no leading zeros. */
  function NatToString(n: nat): (s: string)
    ensures Canonical(s)
    ensures n > 0 ==> s[0] != '0'
  {
    if n < 10 then [DigitChar(n)] else NatToString(n / 10) + [DigitChar(n % 10)]
  }

  /** The value of a string of decimal digits. */
  function DigitsValue(s: string): nat
    requires AllDigits(s)
  {
    if |s| == 1 then DigitValue(s[0])
    else DigitsValue(s[..|s| - 1]) * 10 + DigitValue(s[|s| - 1])
  }

  /** How an `int` is written by `string.Format`: a minus sign, then the magnitude. */
  function IntToString(n: int): string {
    if n < 0 then "-" + NatToString(-n) else NatToString(n)
  }

  /** Reads an `int` back; only the text `IntToString` writes is accepted (no leading zeros, no "-0"). */
  function ParseInt(s: string): Option<int> {
    if |s| > 1 && s[0] == '-' && Canonical(s[1..]) && s[1] != '0' then Some(-(DigitsValue(s[1..]) as int))
    else if Canonical(s) then Some(DigitsValue(s))
    else None
  }

  lemma {:induction false} NatRoundTrip(n: nat)
    ensures DigitsValue(NatToString(n)) == n
  {
    if n >= 10 {
      var s := NatToString(n);
      assert s[..|s| - 1] == NatToString(n / 10);
      NatRoundTrip(n / 10);
    }
  }

  lemma IntRoundTrip(n: int)
    ensures ParseInt(IntToString(n)) == Some(n)
  {
    if n < 0 {
      var s := IntToString(n);
      assert s[1..] == NatToString(-n);
      assert s[1] == NatToString(-n)[0];
      NatRoundTrip(-n);
    } else {
      var s := NatToString(n);
      assert !IsDigit('-');
      assert s[0] != '-';
      NatRoundTrip(n);
    }
  }

  /** Digits that do not start with a zero are worth at least one. */
  lemma {:induction false} LeadingDigitPositive(s: string)
    requires AllDigits(s) && s[0] != '0'
    ensures DigitsValue(s) >= 1
    decreases |s|
  {
    if |s| > 1 {
      assert s[..|s| - 1][0] == s[0];
      LeadingDigitPositive(s[..|s| - 1]);
    }
  }

  /** Canonical digits are exactly what `NatToString` writes for their value. */
  lemma {:induction false} CanonicalIsNatToString(s: string)
    requires Canonical(s)
    ensures NatToString(DigitsValue(s)) == s
    decreases |s|
  {
    if |s| > 1 {
      var p := s[..|s| - 1];
      assert p[0] == s[0];
      LeadingDigitPositive(p);
      var n := DigitsValue(s);
      var d := DigitValue(s[|s| - 1]);
      assert n / 10 == DigitsValue(p) && n % 10 == d;
      CanonicalIsNatToString(p);
      assert s == p + [s[|s| - 1]];
    }
  }

  /** The parser accepts exactly one text per value: the one `IntToString` writes. */
  lemma ParseIntCanonical(s: string, n: int)
    requires ParseInt(s) == Some(n)
    ensures s == IntToString(n)
  {
    if |s| > 1 && s[0] == '-' && Canonical(s[1..]) && s[1] != '0' {
      LeadingDigitPositive(s[1..]);
      CanonicalIsNatToString(s[1..]);
      assert s == "-" + s[1..];
    } else {
      CanonicalIsNatToString(s);
    }
  }

  /** Index of the first quote in `s`, or `|s|` when there is none. */
  function QuoteIndex(s: string): (i: nat)
    ensures i <= |s|
    ensures forall j :: 0 <= j < i ==> s[j] != '\''
    ensures i < |s| ==> s[i] == '\''
  {
    if s == [] || s[0] == '\'' then 0 else 1 + QuoteIndex(s[1..])
  }

  /** The rendering, with null strings already replaced by "". */
  function Render(id: string, nombre: string, hp: int): string {
    Prefijo + (id + (SepNombre + (nombre + (SepHp + (IntToString(hp) + Cierre)))))
  }

  /**
   * Reads a rendering back, one field at a time. The id and the name each end
   * at the first quote after their opening quote, so the parse is exact only
   * for quote-free ones.
   */
  function ParseJugador(s: string): Option<Campos> {
    if Prefijo <= s then ParseId(s[|Prefijo|..]) else None
  }

  function ParseId(r: string): Option<Campos> {
    var i := QuoteIndex(r);
    if SepNombre <= r[i..] then ParseNombre(r[..i], r[i + |SepNombre|..]) else None
  }

  function ParseNombre(id: string, r: string): Option<Campos> {
    var k := QuoteIndex(r);
    if SepHp <= r[k..] then ParseHp(id, r[..k], r[k + |SepHp|..]) else None
  }

  function ParseHp(id: string, nombre: string, r: string): Option<Campos> {
    if |r| < |Cierre| || r[|r| - |Cierre|..] != Cierre then None
    else match ParseInt(r[..|r| - |Cierre|])
      case None => None
      case Some(hp) => Some(Campos(id, nombre, hp))
  }

  predicate QuoteFree(s: string) { '\'' !in s }

  /** A quote-free prefix followed by a quote: the first quote is right after it. */
  lemma {:induction false} QuoteIndexAfter(a: string, b: string)
    requires QuoteFree(a) && |b| > 0 && b[0] == '\''
    ensures QuoteIndex(a + b) == |a|
  {
    if a != [] {
      assert a[0] in a;
      assert (a + b)[1..] == a[1..] + b;
      assert QuoteFree(a[1..]) by {
        forall c | c in a[1..] ensures c in a { }
      }
      QuoteIndexAfter(a[1..], b);
    } else {
      assert a + b == b;
    }
  }

  /** What follows a prefix is the rest of the string. */
  lemma AfterPrefix(p: string, t: string)
    ensures p <= p + t && (p + t)[|p|..] == t
  {
  }

  lemma ParseHpRoundTrip(id: string, nombre: string, hp: int)
    ensures ParseHp(id, nombre, IntToString(hp) + Cierre) == Some(Campos(id, nombre, hp))
  {
    var r := IntToString(hp) + Cierre;
    assert r[|r| - |Cierre|..] == Cierre;
    assert r[..|r| - |Cierre|] == IntToString(hp);
    IntRoundTrip(hp);
  }

  lemma ParseNombreRoundTrip(id: string, nombre: string, hp: int)
    requires QuoteFree(nombre)
    ensures ParseNombre(id, nombre + (SepHp + (IntToString(hp) + Cierre))) == Some(Campos(id, nombre, hp))
  {
    var tail := IntToString(hp) + Cierre;
    var r := nombre + (SepHp + tail);
    QuoteIndexAfter(nombre, SepHp + tail);
    assert r[..|nombre|] == nombre;
    AfterPrefix(nombre, SepHp + tail);
    AfterPrefix(SepHp, tail);
    assert r[|nombre| + |SepHp|..] == tail;
    ParseHpRoundTrip(id, nombre, hp);
  }

  lemma ParseIdRoundTrip(id: string, nombre: string, hp: int)
    requires QuoteFree(id) && QuoteFree(nombre)
    ensures ParseId(id + (SepNombre + (nombre + (SepHp + (IntToString(hp) + Cierre)))))
              == Some(Campos(id, nombre, hp))
  {
    var tail := nombre + (SepHp + (IntToString(hp) + Cierre));
    var r := id + (SepNombre + tail);
    QuoteIndexAfter(id, SepNombre + tail);
    assert r[..|id|] == id;
    AfterPrefix(id, SepNombre + tail);
    AfterPrefix(SepNombre, tail);
    assert r[|id| + |SepNombre|..] == tail;
    ParseNombreRoundTrip(id, nombre, hp);
  }

  /** Every rendering of quote-free strings reads back as what was rendered. */
  lemma RenderRoundTrip(id: string, nombre: string, hp: int)
    ensures QuoteFree(id) && QuoteFree(nombre) ==>
              ParseJugador(Render(id, nombre, hp)) == Some(Campos(id, nombre, hp))
  {
    if QuoteFree(id) && QuoteFree(nombre) {
      AfterPrefix(Prefijo, id + (SepNombre + (nombre + (SepHp + (IntToString(hp) + Cierre)))));
      ParseIdRoundTrip(id, nombre, hp);
    }
  }

  lemma ParseHpExact(id: string, nombre: string, r: string, c: Campos)
    requires ParseHp(id, nombre, r) == Some(c)
    ensures c.id == id && c.nombre == nombre && r == IntToString(c.hp) + Cierre
  {
    var t := r[..|r| - |Cierre|];
    ParseIntCanonical(t, c.hp);
    assert r == t + r[|r| - |Cierre|..];
  }

  lemma ParseNombreExact(id: string, r: string, c: Campos)
    requires ParseNombre(id, r) == Some(c)
    ensures c.id == id && QuoteFree(c.nombre)
    ensures r == c.nombre + (SepHp + (IntToString(c.hp) + Cierre))
  {
    var k := QuoteIndex(r);
    var rest := r[k + |SepHp|..];
    ParseHpExact(id, r[..k], rest, c);
    assert QuoteFree(r[..k]) by {
      forall j | 0 <= j < k ensures r[..k][j] != '\'' { }
    }
    assert r[k..] == SepHp + rest;
    assert r == r[..k] + r[k..];
  }

  lemma ParseIdExact(r: string, c: Campos)
    requires ParseId(r) == Some(c)
    ensures QuoteFree(c.id) && QuoteFree(c.nombre)
    ensures r == c.id + (SepNombre + (c.nombre + (SepHp + (IntToString(c.hp) + Cierre))))
  {
    var i := QuoteIndex(r);
    var rest := r[i + |SepNombre|..];
    ParseNombreExact(r[..i], rest, c);
    assert QuoteFree(r[..i]) by {
      forall j | 0 <= j < i ensures r[..i][j] != '\'' { }
    }
    assert r[i..][..|SepNombre|] == SepNombre && r[i..][|SepNombre|..] == rest;
    assert r[i..] == SepNombre + rest;
    assert r == r[..i] + r[i..];
  }

  /**
   * The parser accepts only renderings: any text it reads as a player is
   * exactly the rendering of what it read, whose id and name are quote-free.
   */
  lemma ParseJugadorExact(s: string, c: Campos)
    requires ParseJugador(s) == Some(c)
    ensures QuoteFree(c.id) && QuoteFree(c.nombre)
    ensures s == Render(c.id, c.nombre, c.hp)
  {
    ParseIdExact(s[|Prefijo|..], c);
    assert s == Prefijo + s[|Prefijo|..];
  }
}
