/**
  `IPAddr` and its `String` method (a dotted-quad serialiser), with a strict
  parser for the same format that serves as its inverse.
 */
module Stringer {
  import opened GoBasics

  /** `type IPAddr [4]byte` */
  type IPAddr = s: seq<uint8> | |s| == 4 witness [0, 0, 0, 0]

  predicate IsDigit(c: char) { '0' <= c <= '9' }

  function DigitChar(d: int): (c: char)
    requires 0 <= d < 10
    ensures IsDigit(c) && c as int - '0' as int == d
  {
    (d + '0' as int) as char
  }

  predicate AllDigits(s: string) { forall i :: 0 <= i < |s| ==> IsDigit(s[i]) }

  /** The number a string of decimal digits denotes, most significant first. */
  function DigitsValue(s: string): nat
    requires AllDigits(s)
  {
    if s == [] then 0 else DigitsValue(s[..|s| - 1]) * 10 + (s[|s| - 1] as int - '0' as int)
  }

  /** Plain unsigned decimal: at least one digit, no leading zero unless the
      whole string is `0`. */
  predicate Canonical(s: string) {
    |s| >= 1 && AllDigits(s) && (s[0] == '0' ==> |s| == 1)
  }

  /** `fmt.Sprintf("%v", x)` for an unsigned integer `x`. */
  function Decimal(x: nat): (r: string)
    ensures Canonical(r) && DigitsValue(r) == x
  {
    if x < 10 then [DigitChar(x)]
    else
      var r := Decimal(x / 10) + [DigitChar(x % 10)];
      assert r[..|r| - 1] == Decimal(x / 10);
      r
  }

  /** A byte is written with one, two or three digits. */
  lemma {:induction false} ComponentLength(x: uint8)
    ensures |Decimal(x)| == if x < 10 then 1 else if x < 100 then 2 else 3
  {
    if x >= 10 {
      assert |Decimal(x)| == |Decimal(x / 10)| + 1;
      if x >= 100 {
        assert |Decimal(x / 10)| == |Decimal(x / 100)| + 1;
      }
    }
  }

  /** The components rendered in index order and joined by `.`: the
      specification of `String`. */
  function Dotted(v: seq<uint8>): string
  {
    if |v| == 0 then ""
    else if |v| == 1 then Decimal(v[0])
    else Dotted(v[..|v| - 1]) + "." + Decimal(v[|v| - 1])
  }

  /** What `String` has built after `i` iterations: the first `i`
      components joined, and a dot after them unless they are all. */
  function Partial(v: seq<uint8>, i: nat): string
    requires i <= |v|
  {
    if i == 0 then "" else if i < |v| then Dotted(v[..i]) + "." else Dotted(v)
  }

  /** One iteration of `String` extends `Partial(v, i)` to `Partial(v, i + 1)`. */
  lemma PartialStep(v: seq<uint8>, i: nat)
    requires i < |v|
    ensures Partial(v, i + 1) == Partial(v, i) + Decimal(v[i]) + (if i < |v| - 1 then "." else "")
  {
    assert v[..i + 1][..i] == v[..i];
    if i + 1 == |v| {
      assert v[..i + 1] == v;
    }
  }

  /** `func (v IPAddr) String() string`: appends each component and, after
      every component but the last, a dot. */
  method String(v: IPAddr) returns (result: string)
    ensures result == Dotted(v)
  {
    result := "";
    for i := 0 to |v|
      invariant result == Partial(v, i)
    {
      PartialStep(v, i);
      result := result + Decimal(v[i]);
      if i < |v| - 1 {
        result := result + ".";
      }
    }
  }

  /** Splits `s` at every occurrence of `sep`, like `strings.Split`. */
  function Split(s: string, sep: char): (parts: seq<string>)
    ensures |parts| >= 1
  {
    if s == [] then [""]
    else if s[0] == sep then [""] + Split(s[1..], sep)
    else
      var rest := Split(s[1..], sep);
      [[s[0]] + rest[0]] + rest[1..]
  }

  lemma {:induction false} SplitNoSep(s: string, sep: char)
    requires sep !in s
    ensures Split(s, sep) == [s]
  {
    if s != [] {
      SplitNoSep(s[1..], sep);
      assert [s[0]] + s[1..] == s;
    }
  }

  lemma {:induction false} SplitJoin(a: string, sep: char, b: string)
    ensures Split(a + [sep] + b, sep) == Split(a, sep) + Split(b, sep)
  {
    if a == [] {
      assert a + [sep] + b == [sep] + b;
    } else {
      assert (a + [sep] + b)[1..] == a[1..] + [sep] + b;
      SplitJoin(a[1..], sep, b);
    }
  }

  /** One component: canonical decimal of at most three digits, below 256. */
  function ParseComponent(s: string): (r: Option<uint8>)
    ensures r.Some? ==> Decimal(r.value) == s
  {
    if Canonical(s) && |s| <= 3 && DigitsValue(s) < 256 then
      DecimalUnique(s);
      Some(DigitsValue(s))
    else None
  }

  /** A canonical digit string is the decimal of its own value. */
  lemma {:induction false} DecimalUnique(s: string)
    requires Canonical(s)
    ensures Decimal(DigitsValue(s)) == s
  {
    if |s| > 1 {
      var init := s[..|s| - 1];
      assert init[0] == s[0];
      assert Canonical(init);
      DecimalUnique(init);
      var d := s[|s| - 1] as int - '0' as int;
      assert DigitsValue(s) == DigitsValue(init) * 10 + d;
      assert init != "0";
      assert DigitsValue(init) > 0;
      assert DigitsValue(s) / 10 == DigitsValue(init);
      assert DigitsValue(s) % 10 == d;
      assert s == init + [s[|s| - 1]];
    }
  }

  function ParseAll(parts: seq<string>): (r: Option<seq<uint8>>)
    ensures r.Some? ==> |r.value| == |parts|
  {
    if parts == [] then Some([])
    else
      match (ParseAll(parts[..|parts| - 1]), ParseComponent(parts[|parts| - 1]))
      case (Some(init), Some(last)) => Some(init + [last])
      case _ => None
  }

  /** Reads back a dotted quad: exactly four dot-separated canonical
      components, each at most 255. */
  function ParseIPAddr(s: string): Option<IPAddr>
  {
    var parts := Split(s, '.');
    if |parts| != 4 then None
    else
      match ParseAll(parts)
      case Some(v) => Some(v)
      case None => None
  }

  function Components(v: seq<uint8>): (parts: seq<string>)
    ensures |parts| == |v|
  {
    if v == [] then [] else Components(v[..|v| - 1]) + [Decimal(v[|v| - 1])]
  }

  lemma {:induction false} SplitDotted(v: seq<uint8>)
    requires |v| >= 1
    ensures Split(Dotted(v), '.') == Components(v)
  {
    var last := Decimal(v[|v| - 1]);
    assert '.' !in last;
    SplitNoSep(last, '.');
    if |v| == 1 {
      assert Components(v) == Components([]) + [last];
    } else {
      SplitDotted(v[..|v| - 1]);
      SplitJoin(Dotted(v[..|v| - 1]), '.', last);
      assert Dotted(v) == Dotted(v[..|v| - 1]) + ['.'] + last;
    }
  }

  lemma {:induction false} ParseComponents(v: seq<uint8>)
    ensures ParseAll(Components(v)) == Some(v)
  {
    if v != [] {
      var init := v[..|v| - 1];
      var x := v[|v| - 1];
      ParseComponents(init);
      ComponentLength(x);
      var cs := Components(v);
      assert cs[..|cs| - 1] == Components(init);
      assert ParseComponent(Decimal(x)) == Some(x);
      assert init + [x] == v;
    }
  }

  /** Parsing the output of `String` gives back the four bytes. */
  lemma RoundTrip(v: IPAddr)
    ensures ParseIPAddr(Dotted(v)) == Some(v)
  {
    SplitDotted(v);
    ParseComponents(v);
  }

  /** Hence `String` is injective: different addresses print differently. */
  lemma Injective(v: IPAddr, w: IPAddr)
    requires Dotted(v) == Dotted(w)
    ensures v == w
  {
    RoundTrip(v);
    RoundTrip(w);
  }

  function CountChar(s: string, c: char): nat
  {
    if s == [] then 0 else (if s[0] == c then 1 else 0) + CountChar(s[1..], c)
  }

  lemma {:induction false} CountCharAppend(a: string, b: string, c: char)
    ensures CountChar(a + b, c) == CountChar(a, c) + CountChar(b, c)
  {
    if a == [] {
      assert a + b == b;
    } else {
      assert (a + b)[0] == a[0];
      assert (a + b)[1..] == a[1..] + b;
      CountCharAppend(a[1..], b, c);
    }
  }

  lemma {:induction false} CountNone(s: string, c: char)
    requires c !in s
    ensures CountChar(s, c) == 0
  {
    if s != [] {
      CountNone(s[1..], c);
    }
  }

  /** A joined sequence of `n` components holds `n - 1` dots, starts and ends
      with a digit, and is between `2n - 1` and `4n - 1` characters long. */
  lemma {:induction false} DottedShape(v: seq<uint8>)
    requires |v| >= 1
    ensures CountChar(Dotted(v), '.') == |v| - 1
    ensures IsDigit(Dotted(v)[0]) && IsDigit(Dotted(v)[|Dotted(v)| - 1])
    ensures 2 * |v| - 1 <= |Dotted(v)| <= 4 * |v| - 1
  {
    var last := Decimal(v[|v| - 1]);
    ComponentLength(v[|v| - 1]);
    assert '.' !in last;
    CountNone(last, '.');
    if |v| > 1 {
      var init := v[..|v| - 1];
      DottedShape(init);
      CountCharAppend(Dotted(init) + ".", last, '.');
      CountCharAppend(Dotted(init), ".", '.');
      assert CountChar(".", '.') == 1;
    }
  }

  /** The rendering of an address: exactly three dots, none leading or
      trailing, and 7 to 15 characters. */
  lemma AddressShape(v: IPAddr)
    ensures CountChar(Dotted(v), '.') == 3
    ensures Dotted(v)[0] != '.' && Dotted(v)[|Dotted(v)| - 1] != '.'
    ensures 7 <= |Dotted(v)| <= 15
  {
    DottedShape(v);
  }

  /** Each dot-separated piece of the output is the canonical decimal of the
      byte at that index. */
  lemma PiecesAreDecimals(v: IPAddr, k: nat)
    requires k < 4
    ensures |Split(Dotted(v), '.')| == 4
    ensures Split(Dotted(v), '.')[k] == Decimal(v[k])
    ensures Canonical(Split(Dotted(v), '.')[k]) && |Split(Dotted(v), '.')[k]| <= 3
  {
    SplitDotted(v);
    ComponentsAt(v, k);
    ComponentLength(v[k]);
  }

  lemma {:induction false} ComponentsAt(v: seq<uint8>, k: nat)
    requires k < |v|
    ensures Components(v)[k] == Decimal(v[k])
  {
    if k < |v| - 1 {
      ComponentsAt(v[..|v| - 1], k);
    }
  }

  /** The two hosts the program prints. */
  lemma Examples()
    ensures Dotted([127, 0, 0, 1]) == "127.0.0.1"
    ensures Dotted([8, 8, 8, 8]) == "8.8.8.8"
  {
    assert Decimal(127) == "127";
    var lo: seq<uint8> := [127, 0, 0, 1];
    assert lo[..3] == [127, 0, 0] && lo[..3][..2] == [127, 0] && lo[..3][..2][..1] == [127];
    assert Dotted(lo[..3][..2]) == "127.0";
    assert Dotted(lo[..3]) == "127.0.0";
    var g: seq<uint8> := [8, 8, 8, 8];
    assert g[..3] == [8, 8, 8] && g[..3][..2] == [8, 8] && g[..3][..2][..1] == [8];
    assert Dotted(g[..3][..2]) == "8.8";
    assert Dotted(g[..3]) == "8.8.8";
  }
}
