/** Version numbers: three 32-bit numbers, printed in decimal with dots, and parsed back. */
module Version {
  import opened Sql

  const WORD := 0x1_0000_0000

  const INT_MIN: int := -0x8000_0000_0000_0000
  const INT_MAX: int := 0x7fff_ffff_ffff_ffff

  datatype Version = Version(v0: nat, v1: nat, v2: nat)

  ghost predicate Valid(v: Version) {
    v.v0 < WORD && v.v1 < WORD && v.v2 < WORD
  }

  datatype ParseError = NotThreeParts | BadPart(index: nat)

  // ---------------------------------------------------------------- decimal numbers

  function Digit(d: nat): char
    requires d < 10
  {
    ('0' as int + d) as char
  }

  predicate IsDigit(c: char) {
    '0' <= c <= '9'
  }

  function Itoa(n: nat): (s: string)
    ensures s != "" && forall c :: c in s ==> IsDigit(c)
  {
    if n < 10 then [Digit(n)] else Itoa(n / 10) + [Digit(n % 10)]
  }

  /** A non-empty string of digits, read as a number. */
  function Digits(s: string): Option<nat> {
    if s == "" then None
    else
      var front, c := s[..|s| - 1], s[|s| - 1];
      if !IsDigit(c) then None
      else
        var d := c as int - '0' as int;
        if front == "" then Some(d)
        else
          var high := Digits(front);
          if high.None? then None else Some(high.value * 10 + d)
  }

  /** strconv.Atoi: an optional sign, digits, and the range of a 64-bit int. */
  function Atoi(s: string): Option<int> {
    var signed := s != "" && (s[0] == '-' || s[0] == '+');
    var magnitude := Digits(if signed then s[1..] else s);
    if magnitude.None? then None
    else
      var m: int := magnitude.value;
      var n := if signed && s[0] == '-' then -m else m;
      if INT_MIN <= n <= INT_MAX then Some(n) else None
  }

  lemma {:induction false} DigitsOfItoa(n: nat)
    ensures Digits(Itoa(n)) == Some(n)
  {
    var s := Itoa(n);
    if n < 10 {
      assert s[..|s| - 1] == "";
    } else {
      DigitsOfItoa(n / 10);
      assert s[..|s| - 1] == Itoa(n / 10) && s[|s| - 1] == Digit(n % 10);
    }
  }

  /** The number without its last i decimal digits. */
  function Shifted(n: nat, i: nat): nat {
    if i == 0 then n else Shifted(n / 10, i - 1)
  }

  /** Itoa writes the decimal digits, the lowest one last, and no leading zero. */
  lemma {:induction false} ItoaDigits(n: nat, i: nat)
    requires i < |Itoa(n)|
    ensures Itoa(n)[|Itoa(n)| - 1 - i] as int == '0' as int + Shifted(n, i) % 10
    ensures Shifted(n, |Itoa(n)|) == 0 && (|Itoa(n)| > 1 ==> Itoa(n)[0] != '0')
  {
    if n >= 10 {
      ItoaDigits(n / 10, if i > 0 then i - 1 else 0);
    }
  }

  function Zeros(k: nat): string {
    seq(k, _ => '0')
  }

  lemma {:induction false} LeadingZero(s: string)
    ensures s != "" ==> Digits("0" + s) == Digits(s)
  {
    if |s| > 1 {
      var z := "0" + s;
      assert z[..|z| - 1] == "0" + s[..|s| - 1];
      LeadingZero(s[..|s| - 1]);
    } else if |s| == 1 {
      assert ("0" + s)[..1] == "0" && "0"[..0] == "" && s[..0] == "";
    }
  }

  lemma {:induction false} ZerosIgnored(k: nat, n: nat)
    ensures Digits(Zeros(k) + Itoa(n)) == Some(n)
  {
    if k == 0 {
      DigitsOfItoa(n);
      assert Zeros(k) + Itoa(n) == Itoa(n);
    } else {
      ZerosIgnored(k - 1, n);
      LeadingZero(Zeros(k - 1) + Itoa(n));
      assert Zeros(k) + Itoa(n) == "0" + (Zeros(k - 1) + Itoa(n));
    }
  }

  lemma {:induction false} NumeralOf(s: string, n: nat) returns (k: nat)
    requires Digits(s) == Some(n)
    ensures s == Zeros(k) + Itoa(n)
  {
    var front, d := s[..|s| - 1], s[|s| - 1] as int - '0' as int;
    assert s == front + [Digit(d)];
    if front == "" {
      k := 0;
      assert s == Zeros(0) + Itoa(n);
    } else {
      var high := Digits(front).value;
      k := NumeralOf(front, high);
      if high == 0 {
        assert Zeros(k) + "0" == Zeros(k + 1);
        k := k + 1;
      } else {
        assert n / 10 == high && n % 10 == d;
        assert Zeros(k) + Itoa(high) + [Digit(d)] == Zeros(k) + (Itoa(high) + [Digit(d)]);
      }
    }
  }

  /** The strings that read as a number are its decimal text behind any number of zeros. */
  lemma DigitsIff(s: string, n: nat)
    ensures Digits(s) == Some(n) <==> exists k :: s == Zeros(k) + Itoa(n)
  {
    if Digits(s) == Some(n) {
      var k := NumeralOf(s, n);
    }
    if k :| s == Zeros(k) + Itoa(n) {
      ZerosIgnored(k, n);
    }
  }

  lemma {:induction false} FirstIsDigit(s: string)
    requires Digits(s).Some?
    ensures s != "" && '0' <= s[0] <= '9'
  {
    if |s| > 1 {
      FirstIsDigit(s[..|s| - 1]);
    }
  }

  /** What strconv.Atoi accepts: 64-bit numbers in that form, with or without a sign. */
  lemma AtoiIff(s: string, n: int)
    ensures Atoi(s) == Some(n) <==>
              && -0x8000_0000_0000_0000 <= n <= 0x7fff_ffff_ffff_ffff
              && (|| (n >= 0 && Digits(s) == Some(n))
                  || (n >= 0 && s != "" && s[0] == '+' && Digits(s[1..]) == Some(n))
                  || (n <= 0 && s != "" && s[0] == '-' && Digits(s[1..]) == Some(-n)))
  {
    if Digits(s).Some? {
      FirstIsDigit(s);
    }
  }

  lemma AtoiOfItoa(n: nat)
    requires n < WORD
    ensures Atoi(Itoa(n)) == Some(n)
  {
    DigitsOfItoa(n);
    assert IsDigit(Itoa(n)[0]);
  }

  // ---------------------------------------------------------------- splitting and joining

  function Split(s: string, sep: char): (parts: seq<string>)
    ensures parts != []
  {
    if s == "" then [""]
    else
      var rest := Split(s[1..], sep);
      if s[0] == sep then [""] + rest else [[s[0]] + rest[0]] + rest[1..]
  }

  function Join(parts: seq<string>, sep: char): string {
    if parts == [] then ""
    else if |parts| == 1 then parts[0]
    else parts[0] + [sep] + Join(parts[1..], sep)
  }

  ghost predicate NoSep(parts: seq<string>, sep: char) {
    forall p :: p in parts ==> sep !in p
  }

  lemma {:induction false} SplitHead(p: string, sep: char, rest: string)
    requires sep !in p
    ensures Split(p + [sep] + rest, sep) == [p] + Split(rest, sep)
    ensures Split(p, sep) == [p]
    decreases |p|
  {
    var s := p + [sep] + rest;
    if p == "" {
      assert s[1..] == rest;
    } else {
      SplitHead(p[1..], sep, rest);
      assert s[0] == p[0] && p[0] in p && s[1..] == p[1..] + [sep] + rest;
      assert p == [p[0]] + p[1..];
    }
  }

  /** Split undoes Join for parts without the separator. */
  lemma {:induction false} SplitOfJoin(parts: seq<string>, sep: char)
    requires parts != [] && NoSep(parts, sep)
    ensures Split(Join(parts, sep), sep) == parts
    decreases |parts|
  {
    assert parts[0] in parts;
    SplitHead(parts[0], sep, Join(parts[1..], sep));
    if |parts| > 1 {
      SplitOfJoin(parts[1..], sep);
      assert parts == [parts[0]] + parts[1..];
    } else {
      assert parts == [parts[0]];
    }
  }

  lemma NoSepFront(c: char, rest: seq<string>, sep: char)
    requires rest != [] && NoSep(rest, sep) && c != sep
    ensures NoSep([[c] + rest[0]] + rest[1..], sep)
  {
    assert rest[0] in rest;
    assert forall p :: p in rest[1..] ==> p in rest;
  }

  /** And Join undoes Split for every string. */
  lemma {:induction false} JoinOfSplit(s: string, sep: char)
    ensures Join(Split(s, sep), sep) == s && NoSep(Split(s, sep), sep)
    decreases |s|
  {
    if s != "" {
      JoinOfSplit(s[1..], sep);
      var rest := Split(s[1..], sep);
      assert s == [s[0]] + s[1..];
      if s[0] == sep {
        assert ([""] + rest)[1..] == rest;
      } else {
        var parts := [[s[0]] + rest[0]] + rest[1..];
        assert parts[1..] == rest[1..];
        NoSepFront(s[0], rest, sep);
      }
    }
  }

  // ---------------------------------------------------------------- versions

  /** The text of a version. */
  function TextOf(v: Version): string {
    Join([Itoa(v.v0), Itoa(v.v1), Itoa(v.v2)], '.')
  }

  lemma TextParts(v: Version)
    ensures TextOf(v) == Itoa(v.v0) + "." + Itoa(v.v1) + "." + Itoa(v.v2)
  {
    var parts := [Itoa(v.v0), Itoa(v.v1), Itoa(v.v2)];
    assert parts[1..] == [Itoa(v.v1), Itoa(v.v2)] && parts[1..][1..] == [Itoa(v.v2)];
    assert Join(parts[1..], '.') == Itoa(v.v1) + ['.'] + Itoa(v.v2);
  }

  method String(v: Version) returns (s: string)
    ensures s == Itoa(v.v0) + "." + Itoa(v.v1) + "." + Itoa(v.v2)
    ensures s == TextOf(v)
  {
    TextParts(v);
    var numbers := [v.v0, v.v1, v.v2];
    var parts := new string[3](_ => "");
    for i := 0 to 3
      invariant forall k :: 0 <= k < i ==> parts[k] == Itoa(numbers[k])
    {
      parts[i] := Itoa(numbers[i]);
    }
    assert parts[..] == [Itoa(v.v0), Itoa(v.v1), Itoa(v.v2)];
    s := Join(parts[..], '.');
  }

  /** Conversion of an int to uint32 drops the high bits. */
  function ToUint32(n: int): nat {
    n % WORD
  }

  function ParseVersion(s: string): Result<Version, ParseError> {
    var parts := Split(s, '.');
    if |parts| != 3 then Err(NotThreeParts)
    else if Atoi(parts[0]).None? then Err(BadPart(0))
    else if Atoi(parts[1]).None? then Err(BadPart(1))
    else if Atoi(parts[2]).None? then Err(BadPart(2))
    else Ok(Version(ToUint32(Atoi(parts[0]).value), ToUint32(Atoi(parts[1]).value), ToUint32(Atoi(parts[2]).value)))
  }

  lemma PartsOfText(v: Version)
    ensures Split(TextOf(v), '.') == [Itoa(v.v0), Itoa(v.v1), Itoa(v.v2)]
  {
    var a, b, c := Itoa(v.v0), Itoa(v.v1), Itoa(v.v2);
    assert !IsDigit('.');
    SplitOfJoin([a, b, c], '.');
  }

  /** Parsing the text of any version gives that version back. */
  lemma ParseOfText(v: Version)
    requires Valid(v)
    ensures ParseVersion(TextOf(v)) == Ok(v)
  {
    PartsOfText(v);
    AtoiOfItoa(v.v0);
    AtoiOfItoa(v.v1);
    AtoiOfItoa(v.v2);
  }

  /** Different versions have different texts. */
  lemma TextInjective(v: Version, w: Version)
    requires Valid(v) && Valid(w) && TextOf(v) == TextOf(w)
    ensures v == w
  {
    ParseOfText(v);
    ParseOfText(w);
  }

  /** Exactly the strings of three dot-separated 64-bit integers parse, into those integers
      modulo 2^32. */
  lemma ParseAcceptsIff(s: string, v: Version)
    ensures ParseVersion(s) == Ok(v) <==>
            exists a: string, b: string, c: string ::
              && NoSep([a, b, c], '.') && s == Join([a, b, c], '.')
              && Atoi(a).Some? && Atoi(b).Some? && Atoi(c).Some?
              && v == Version(Atoi(a).value % 0x1_0000_0000, Atoi(b).value % 0x1_0000_0000,
                              Atoi(c).value % 0x1_0000_0000)
  {
    JoinOfSplit(s, '.');
    var parts := Split(s, '.');
    if ParseVersion(s) == Ok(v) {
      assert parts == [parts[0], parts[1], parts[2]];
    }
    forall a: string, b: string, c: string | NoSep([a, b, c], '.') && s == Join([a, b, c], '.')
      ensures parts == [a, b, c]
    {
      SplitOfJoin([a, b, c], '.');
    }
  }

  predicate LessThan(v: Version, w: Version) {
    || v.v0 < w.v0
    || (v.v0 == w.v0 && v.v1 < w.v1)
    || (v.v0 == w.v0 && v.v1 == w.v1 && v.v2 < w.v2)
  }

  /** The 96-bit number that the three words spell. */
  function Weight(v: Version): nat {
    (v.v0 * WORD + v.v1) * WORD + v.v2
  }

  /** LessThan is the order of those numbers, and different versions are different numbers:
      a strict total order. */
  lemma LessThanIsNumericOrder(v: Version, w: Version)
    requires Valid(v) && Valid(w)
    ensures LessThan(v, w) <==> Weight(v) < Weight(w)
    ensures v == w <==> Weight(v) == Weight(w)
  {
    var a, b := v.v0 * WORD + v.v1, w.v0 * WORD + w.v1;
    assert a < b <==> v.v0 < w.v0 || (v.v0 == w.v0 && v.v1 < w.v1);
    assert a == b <==> v.v0 == w.v0 && v.v1 == w.v1;
    assert a < b ==> a + 1 <= b;
  }

  lemma LessThanStrictTotal(u: Version, v: Version, w: Version)
    requires Valid(u) && Valid(v) && Valid(w)
    ensures !LessThan(v, v)
    ensures LessThan(u, v) && LessThan(v, w) ==> LessThan(u, w)
    ensures LessThan(v, w) || v == w || LessThan(w, v)
    ensures !(LessThan(v, w) && LessThan(w, v))
  {
    LessThanIsNumericOrder(u, v);
    LessThanIsNumericOrder(v, w);
    LessThanIsNumericOrder(u, w);
  }
}
