/** Attribute text: how the binding prints and parses integers, booleans, strings and
    enumeration names. */
module XmlText {
  import opened Octets

  datatype Kind = IntKind | BoolKind | StringKind | EnumKind(names: seq<string>)

  datatype Prim = IntVal(i: int) | BoolVal(b: bool) | StringVal(s: string) | EnumVal(index: int)

  const INT_MIN: int := -0x8000_0000
  const INT_MAX: int := 0x7FFF_FFFF

  // ---- C strings ----

  /** What is left of a text handed on as a C string: everything before the first NUL. */
  function Cut(s: string): string {
    if s == [] || s[0] == '\0' then [] else [s[0]] + Cut(s[1..])
  }

  lemma {:induction false} CutIdentity(s: string)
    ensures Cut(s) == s <==> '\0' !in s
    ensures '\0' !in Cut(s)
    decreases |s|
  {
    if s != [] {
      CutIdentity(s[1..]);
      assert s == [s[0]] + s[1..];
      if s[0] != '\0' && Cut(s) == s { assert Cut(s)[1..] == s[1..]; }
    }
  }

  // ---- Decimal numbers ----

  function Digit(d: nat): char
    requires d < 10
  {
    "0123456789"[d]
  }

  predicate IsDigit(c: char) { '0' <= c <= '9' }

  function Digits(n: nat): string {
    if n < 10 then [Digit(n)] else Digits(n / 10) + [Digit(n % 10)]
  }

  function IntText(i: int): string {
    if i < 0 then "-" + Digits(-i) else Digits(i)
  }

  function Number(s: string): nat
    requires forall c <- s :: IsDigit(c)
  {
    if s == [] then 0
    else
      assert s[|s| - 1] in s && IsDigit(s[|s| - 1]);
      Number(s[..|s| - 1]) * 10 + (s[|s| - 1] as int - '0' as int)
  }

  predicate IsSpace(c: char) {
    c == ' ' || c == '\t' || c == '\n' || c == '\r' || c as int == 11 || c as int == 12
  }

  function SkipSpace(s: string): string {
    if s != [] && IsSpace(s[0]) then SkipSpace(s[1..]) else s
  }

  /** Extraction of an int from a stream that must then be at its end: spaces, a sign,
      digits, and a value in range. */
  function ParseInt(text: string): Option<int> {
    var s := SkipSpace(text);
    var negative := s != [] && s[0] == '-';
    var digits := if s != [] && (s[0] == '-' || s[0] == '+') then s[1..] else s;
    if digits == [] || !(forall c <- digits :: IsDigit(c)) then None
    else
      var n: int := Number(digits);
      var v := if negative then -n else n;
      if INT_MIN <= v <= INT_MAX then Some(v) else None
  }

  lemma {:induction false} DigitsParse(n: nat)
    ensures Digits(n) != [] && forall c <- Digits(n) :: IsDigit(c)
    ensures Number(Digits(n)) == n
    ensures !IsSpace(Digits(n)[0]) && Digits(n)[0] != '-' && Digits(n)[0] != '+' && '\0' !in Digits(n)
    decreases n
  {
    if n < 10 {
      assert [Digit(n)][..0] == [];
    } else {
      DigitsParse(n / 10);
      var d := Digits(n);
      assert d[..|d| - 1] == Digits(n / 10) && d[|d| - 1] == Digit(n % 10);
    }
  }

  lemma IntRoundTrip(i: int)
    requires INT_MIN <= i <= INT_MAX
    ensures ParseInt(IntText(i)) == Some(i) && '\0' !in IntText(i)
  {
    hide Digits, Number;
    DigitsParse(if i < 0 then -i else i);
    var t := IntText(i);
    assert SkipSpace(t) == t;
    if i < 0 {
      assert t[1..] == Digits(-i);
      assert forall c <- t :: c == '-' || c in Digits(-i);
    }
  }

  /** The value of decimal digits, each weighed by its place. */
  function Decimal(s: string): nat
    requires forall c <- s :: IsDigit(c)
  {
    if s == [] then 0
    else
      assert s[0] in s && IsDigit(s[0]);
      (s[0] as int - '0' as int) * Ten(|s| - 1) + Decimal(s[1..])
  }

  function Ten(n: nat): nat { if n == 0 then 1 else 10 * Ten(n - 1) }

  lemma {:induction false} DecimalSnoc(s: string, c: char)
    requires (forall d <- s :: IsDigit(d)) && IsDigit(c)
    ensures Decimal(s + [c]) == 10 * Decimal(s) + (c as int - '0' as int)
    decreases |s|
  {
    if s == [] {
      assert s + [c] == [c] && [c][1..] == [];
    } else {
      assert (s + [c])[1..] == s[1..] + [c];
      DecimalSnoc(s[1..], c);
      var d, t := s[0] as int - '0' as int, Ten(|s| - 1);
      assert d * (10 * t) == 10 * (d * t);
    }
  }

  lemma {:induction false} NumberIsDecimal(s: string)
    requires forall c <- s :: IsDigit(c)
    ensures Number(s) == Decimal(s)
    decreases |s|
  {
    if s != [] {
      var init, c := s[..|s| - 1], s[|s| - 1];
      assert s == init + [c] && c in s;
      NumberIsDecimal(init);
      DecimalSnoc(init, c);
    }
  }

  /** Spaces, at most one sign, then digits. */
  ghost predicate Numeral(text: string, v: int, spaces: string, sign: string, digits: string) {
    && text == spaces + sign + digits && (forall c <- spaces :: IsSpace(c))
    && (sign == "" || sign == "-" || sign == "+")
    && digits != [] && (forall c <- digits :: IsDigit(c))
    && v == if sign == "-" then 0 - Decimal(digits) else Decimal(digits)
  }

  lemma {:induction false} SkipSpaceSplits(text: string) returns (spaces: string)
    ensures text == spaces + SkipSpace(text) && forall c <- spaces :: IsSpace(c)
    decreases |text|
  {
    if text != [] && IsSpace(text[0]) {
      var more := SkipSpaceSplits(text[1..]);
      spaces := [text[0]] + more;
      assert text == [text[0]] + text[1..];
    } else {
      spaces := [];
    }
  }

  lemma {:induction false} SkipSpaceSkips(spaces: string, rest: string)
    requires (forall c <- spaces :: IsSpace(c)) && (rest != [] ==> !IsSpace(rest[0]))
    ensures SkipSpace(spaces + rest) == rest
    decreases |spaces|
  {
    if spaces == [] {
      assert spaces + rest == rest;
    } else {
      assert spaces[0] in spaces && (spaces + rest)[1..] == spaces[1..] + rest;
      SkipSpaceSkips(spaces[1..], rest);
    }
  }

  lemma NumeralParses(text: string, v: int, spaces: string, sign: string, digits: string)
    requires Numeral(text, v, spaces, sign, digits) && INT_MIN <= v <= INT_MAX
    ensures ParseInt(text) == Some(v)
  {
    hide Decimal, Number, SkipSpace;
    var s := sign + digits;
    assert digits[0] in digits && IsDigit(digits[0]);
    assert text == spaces + s;
    assert !IsSpace(s[0]);
    SkipSpaceSkips(spaces, s);
    NumberIsDecimal(digits);
    if sign == "" {
      assert s == digits;
    } else {
      assert s[0] == sign[0] && s[1..] == digits;
    }
  }

  /** What an integer attribute may look like, and what it then means. */
  lemma ParseIntExact(text: string, v: int)
    ensures ParseInt(text) == Some(v)
            <==> INT_MIN <= v <= INT_MAX && exists a, b, c :: Numeral(text, v, a, b, c)
  {
    hide Decimal, Number, Numeral;
    if ParseInt(text) == Some(v) {
      ParsedNumeral(text, v);
    }
    if INT_MIN <= v <= INT_MAX && exists a, b, c :: Numeral(text, v, a, b, c) {
      var a, b, c :| Numeral(text, v, a, b, c);
      NumeralParses(text, v, a, b, c);
    }
  }

  lemma ParsedNumeral(text: string, v: int)
    requires ParseInt(text) == Some(v)
    ensures exists a, b, c :: Numeral(text, v, a, b, c)
  {
    hide Decimal, Number, Numeral, SkipSpace, IsSpace;
    var spaces := SkipSpaceSplits(text);
    var s := SkipSpace(text);
    var n := if s[0] == '-' || s[0] == '+' then 1 else 0;
    var sign, digits := s[..n], s[n..];
    NumberIsDecimal(digits);
    assert digits != [] && v == if s[0] == '-' then 0 - Decimal(digits) else Decimal(digits);
    SignedNumeral(text, v, spaces, s, n);
  }

  lemma SignedNumeral(text: string, v: int, spaces: string, s: string, n: nat)
    requires text == spaces + s && (forall c <- spaces :: IsSpace(c))
    requires n < |s| && n == if s[0] == '-' || s[0] == '+' then 1 else 0
    requires forall c <- s[n..] :: IsDigit(c)
    requires v == if s[0] == '-' then 0 - Decimal(s[n..]) else Decimal(s[n..])
    ensures exists a, b, c :: Numeral(text, v, a, b, c)
  {
    hide Decimal, IsSpace, IsDigit;
    var sign, digits := s[..n], s[n..];
    assert spaces + sign + digits == spaces + s;
    assert n == 1 ==> sign == [s[0]];
    assert Numeral(text, v, spaces, sign, digits);
  }

  /** Numbers are written without leading zeros, and with a sign only when negative. */
  lemma {:induction false} DigitsLead(n: nat)
    ensures |Digits(n)| > 1 ==> Digits(n)[0] != '0'
    ensures n > 0 ==> Digits(n)[0] != '0'
    decreases n
  {
    if n >= 10 { DigitsLead(n / 10); }
  }

  lemma IntTextCanonical(i: int)
    ensures var t := IntText(i);
            && t != [] && (i < 0 <==> t[0] == '-')
            && var d := if i < 0 then t[1..] else t;
               d != [] && (forall c <- d :: IsDigit(c)) && (|d| > 1 ==> d[0] != '0')
               && Decimal(d) == if i < 0 then -i else i
  {
    hide Digits, Decimal, Number;
    var n := if i < 0 then -i else i;
    DigitsParse(n);
    DigitsLead(n);
    NumberIsDecimal(Digits(n));
    assert i < 0 ==> IntText(i)[1..] == Digits(n);
  }

  // ---- Booleans ----

  function BoolText(b: bool): string {
    if b then "true" else "false"
  }

  /** The words, or else a number that must be 0 or 1. */
  function ParseBool(text: string): Option<bool> {
    if text == "true" then Some(true)
    else if text == "false" then Some(false)
    else match ParseInt(text)
      case Some(0) => Some(false)
      case Some(1) => Some(true)
      case _ => None
  }

  // ---- Values of a kind ----

  function IndexOf(names: seq<string>, s: string): Option<nat> {
    if names == [] then None
    else if names[0] == s then Some(0)
    else match IndexOf(names[1..], s) case Some(i) => Some(i + 1) case None => None
  }

  ghost predicate GoodKind(k: Kind) {
    k.EnumKind? ==>
      && (forall i, j :: 0 <= i < j < |k.names| ==> k.names[i] != k.names[j])
      && (forall n <- k.names :: '\0' !in n)
  }

  /** A member of the C++ type; an uninitialized enumeration may hold any number. */
  predicate HasKind(k: Kind, p: Prim) {
    match k
    case IntKind => p.IntVal? && INT_MIN <= p.i <= INT_MAX
    case BoolKind => p.BoolVal?
    case StringKind => p.StringVal?
    case EnumKind(_) => p.EnumVal?
  }

  /** None where ToString_* throws: a number that is no enumerator. */
  function ToText(k: Kind, p: Prim): Option<string>
    requires HasKind(k, p)
  {
    match k
    case IntKind => Some(IntText(p.i))
    case BoolKind => Some(BoolText(p.b))
    case StringKind => Some(p.s)
    case EnumKind(names) => if 0 <= p.index < |names| then Some(names[p.index]) else None
  }

  /** None where FromString_* throws; only strings accept a missing attribute. */
  function FromText(k: Kind, t: Option<string>): Option<Prim> {
    match k
    case StringKind => Some(StringVal(if t.Some? then t.value else ""))
    case IntKind =>
      if t.None? then None else (match ParseInt(t.value) case Some(i) => Some(IntVal(i)) case None => None)
    case BoolKind =>
      if t.None? then None else (match ParseBool(t.value) case Some(b) => Some(BoolVal(b)) case None => None)
    case EnumKind(names) =>
      if t.None? then None else (match IndexOf(names, t.value) case Some(i) => Some(EnumVal(i)) case None => None)
  }

  lemma {:induction false} IndexOfFirst(names: seq<string>, s: string, i: nat)
    ensures IndexOf(names, s) == Some(i) <==> i < |names| && names[i] == s && forall j :: 0 <= j < i ==> names[j] != s
    decreases |names|
  {
    if names != [] && i > 0 {
      IndexOfFirst(names[1..], s, i - 1);
      assert forall j :: 1 <= j < |names| ==> names[j] == names[1..][j - 1];
    }
  }

  /** Which texts are read, and as what: any text as a string, the words or 1 and 0 as a
      boolean, a numeral as a number, a name as its enumerator. */
  lemma FromTextExact(k: Kind, text: string, p: Prim)
    ensures FromText(k, Some(text)) == Some(p) <==>
              match k
              case StringKind => p == StringVal(text)
              case IntKind => p.IntVal? && ParseInt(text) == Some(p.i)
              case BoolKind =>
                p.BoolVal?
                && (text == (if p.b then "true" else "false") || ParseInt(text) == Some(if p.b then 1 else 0))
              case EnumKind(names) =>
                p.EnumVal? && 0 <= p.index < |names| && names[p.index] == text
                && forall j :: 0 <= j < p.index ==> names[j] != text
  {
    match k
    case StringKind =>
    case IntKind =>
    case BoolKind =>
      assert "true"[0] == 't' && "false"[0] == 'f';
    case EnumKind(names) =>
      if p.EnumVal? && 0 <= p.index { IndexOfFirst(names, text, p.index); }
      if IndexOf(names, text).Some? { IndexOfFirst(names, text, IndexOf(names, text).value); }
  }

  /** What a value is after one trip through a C string. */
  function CutPrim(p: Prim): Prim {
    if p.StringVal? then StringVal(Cut(p.s)) else p
  }

  predicate NulFreePrim(p: Prim) {
    p.StringVal? ==> '\0' !in p.s
  }

  lemma {:induction false} IndexOfName(names: seq<string>, i: nat)
    requires i < |names| && forall a, b :: 0 <= a < b < |names| ==> names[a] != names[b]
    ensures IndexOf(names, names[i]) == Some(i)
    decreases i
  {
    if i > 0 {
      assert names[0] != names[i];
      IndexOfName(names[1..], i - 1);
    }
  }

  /** Printing and reading back gives the value itself, or its part before a NUL. */
  lemma TextRoundTrip(k: Kind, p: Prim)
    requires GoodKind(k) && HasKind(k, p) && ToText(k, p).Some?
    ensures FromText(k, Some(Cut(ToText(k, p).value))) == Some(CutPrim(p))
  {
    var t := ToText(k, p).value;
    CutIdentity(t);
    match k
    case IntKind => IntRoundTrip(p.i);
    case BoolKind => assert '\0' !in BoolText(p.b);
    case StringKind =>
    case EnumKind(names) =>
      assert t in names;
      IndexOfName(names, p.index);
  }

  /** What is read is of its kind, free of NULs, and can be printed again. */
  lemma ReadIsPrintable(k: Kind, t: Option<string>)
    requires GoodKind(k) && FromText(k, t).Some? && (t.Some? ==> '\0' !in t.value)
    ensures var p := FromText(k, t).value; HasKind(k, p) && NulFreePrim(p) && ToText(k, p).Some?
  {
    if k.EnumKind? { IndexOfRange(k.names, t.value); }
  }

  lemma {:induction false} IndexOfRange(names: seq<string>, s: string)
    ensures IndexOf(names, s).Some? ==> IndexOf(names, s).value < |names|
    decreases |names|
  {
    if names != [] { IndexOfRange(names[1..], s); }
  }
}
