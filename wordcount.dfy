/**
  The word-count exercise: `WordCount` and `WordCountReal` build a map from
  every whitespace-separated field of a string to its number of occurrences.
 */
module Maps {

  /** `unicode.IsSpace`: the Latin-1 spaces and the other code points with the
      Unicode White_Space property. */
  predicate IsSpace(c: char) {
    || c == '\t' || c == '\n' || c == '\U{0B}' || c == '\U{0C}' || c == '\r' || c == ' '
    || c == '\U{85}' || c == '\U{A0}' || c == '\U{1680}'
    || ('\U{2000}' <= c <= '\U{200A}')
    || c == '\U{2028}' || c == '\U{2029}' || c == '\U{202F}' || c == '\U{205F}' || c == '\U{3000}'
  }

  predicate NoSpace(w: string) { forall i :: 0 <= i < |w| ==> !IsSpace(w[i]) }

  predicate AllSpace(s: string) { forall i :: 0 <= i < |s| ==> IsSpace(s[i]) }

  /** Length of the run of non-space characters at the start of `s`. */
  function WordLength(s: string): (n: nat)
    ensures n <= |s| && NoSpace(s[..n])
    ensures n < |s| ==> IsSpace(s[n])
  {
    if s == [] || IsSpace(s[0]) then 0
    else
      var n := 1 + WordLength(s[1..]);
      assert s[..n] == [s[0]] + s[1..][..n - 1];
      n
  }

  /** `strings.Fields`: the maximal runs of non-space characters, in order. */
  function Fields(s: string): (fs: seq<string>)
    ensures forall k :: 0 <= k < |fs| ==> fs[k] != "" && NoSpace(fs[k])
    decreases |s|
  {
    if s == [] then []
    else if IsSpace(s[0]) then Fields(s[1..])
    else
      var n := WordLength(s);
      [s[..n]] + Fields(s[n..])
  }

  /** Fields finds nothing exactly when every character is a space. */
  lemma {:induction false} FieldsEmpty(s: string)
    ensures Fields(s) == [] <==> AllSpace(s)
    decreases |s|
  {
    if s != [] {
      if IsSpace(s[0]) {
        FieldsEmpty(s[1..]);
        assert AllSpace(s) <==> AllSpace(s[1..]) by {
          if AllSpace(s[1..]) {
            forall i | 0 <= i < |s| ensures IsSpace(s[i]) {
              if i > 0 { assert s[i] == s[1..][i - 1]; }
            }
          }
        }
      } else {
        assert !AllSpace(s);
      }
    }
  }

  lemma {:induction false} WordLengthBeforeSpace(a: string, c: char, b: string)
    requires IsSpace(c)
    ensures WordLength(a + [c] + b) == WordLength(a)
  {
    if a == [] {
      assert (a + [c] + b)[0] == c;
    } else {
      assert (a + [c] + b)[0] == a[0];
      if !IsSpace(a[0]) {
        assert (a + [c] + b)[1..] == a[1..] + [c] + b;
        WordLengthBeforeSpace(a[1..], c, b);
      }
    }
  }

  /** A space separates: the fields of `a`, a space, then `b` are the fields
      of `a` followed by those of `b`. */
  lemma {:induction false} FieldsSplit(a: string, c: char, b: string)
    requires IsSpace(c)
    ensures Fields(a + [c] + b) == Fields(a) + Fields(b)
    decreases |a|
  {
    var s := a + [c] + b;
    if a == [] {
      assert s[0] == c && s[1..] == b;
    } else if IsSpace(a[0]) {
      assert s[0] == a[0] && s[1..] == a[1..] + [c] + b;
      FieldsSplit(a[1..], c, b);
    } else {
      assert s[0] == a[0];
      var n := WordLength(a);
      WordLengthBeforeSpace(a, c, b);
      assert s[..n] == a[..n];
      assert s[n..] == a[n..] + [c] + b;
      FieldsSplit(a[n..], c, b);
    }
  }

  /** A non-empty run of non-space characters is a single field. */
  lemma FieldsOfWord(w: string)
    requires w != "" && NoSpace(w)
    ensures Fields(w) == [w]
  {
    WordLengthOfWord(w);
    assert w[..|w|] == w && w[|w|..] == [];
  }

  lemma {:induction false} WordLengthOfWord(w: string)
    requires NoSpace(w)
    ensures WordLength(w) == |w|
  {
    if w != [] {
      WordLengthOfWord(w[1..]);
    }
  }

  /** The reference count: key `w` maps to the number of times it occurs. */
  function Tally(ws: seq<string>): (m: map<string, int>)
  {
    map w | w in ws :: multiset(ws)[w]
  }

  /** Go's read of a missing key: the zero value. */
  function Get(m: map<string, int>, k: string): int
  {
    if k in m then m[k] else 0
  }

  /** One more field updates exactly that field's count. */
  lemma TallySnoc(ws: seq<string>, w: string)
    ensures Tally(ws + [w]) == Tally(ws)[w := Get(Tally(ws), w) + 1]
  {
    var a, b := Tally(ws + [w]), Tally(ws)[w := Get(Tally(ws), w) + 1];
    assert multiset(ws + [w]) == multiset(ws) + multiset{w};
    assert a.Keys == b.Keys by {
      forall x ensures x in ws + [w] <==> x in ws || x == w {
        if x in ws + [w] && x != w {
          var k :| 0 <= k < |ws + [w]| && (ws + [w])[k] == x;
          assert ws[k] == x;
        }
      }
    }
    forall x | x in a ensures a[x] == b[x] {
      if x != w {
        assert x in ws;
      } else if w !in ws {
        assert multiset(ws)[w] == 0;
      }
    }
  }

  /** Counting one more field of `ws`, the loop step of both variants. */
  lemma TallyPrefix(ws: seq<string>, k: int)
    requires 0 <= k < |ws|
    ensures Tally(ws[..k + 1]) == Tally(ws[..k])[ws[k] := Get(Tally(ws[..k]), ws[k]) + 1]
  {
    assert ws[..k + 1] == ws[..k] + [ws[k]];
    TallySnoc(ws[..k], ws[k]);
  }

  /** `WordCount`: looks the field up and either increments it or stores 1. */
  method WordCount(s: string) returns (result: map<string, int>)
    ensures result == Tally(Fields(s))
  {
    result := map[];
    var fields := Fields(s);
    for k := 0 to |fields|
      invariant result == Tally(fields[..k])
    {
      var i := fields[k];
      TallyPrefix(fields, k);
      if i in result {
        result := result[i := result[i] + 1];
      } else {
        result := result[i := 1];
      }
    }
    assert fields[..|fields|] == fields;
  }

  /** `WordCountReal`: `ret[ss[i]]++`, relying on the zero value of a missing
      key. */
  method WordCountReal(s: string) returns (ret: map<string, int>)
    ensures ret == Tally(Fields(s))
  {
    var ss := Fields(s);
    var num := |ss|;
    ret := map[];
    var i := 0;
    while i < num
      invariant 0 <= i <= num
      invariant ret == Tally(ss[..i])
    {
      TallyPrefix(ss, i);
      ret := ret[ss[i] := Get(ret, ss[i]) + 1];
      i := i + 1;
    }
    assert ss[..num] == ss;
  }

  /** The two variants return the same map for every input. */
  method VariantsAgree(s: string) returns (a: map<string, int>, b: map<string, int>)
    ensures a == b
  {
    a := WordCount(s);
    b := WordCountReal(s);
  }

  /** The keys of the count are the distinct fields, each counted as often as
      it occurs: at least once, and never for the empty string. */
  lemma WordCountKeys(s: string)
    ensures Tally(Fields(s)).Keys == set w | w in Fields(s)
    ensures forall w :: w in Tally(Fields(s)) ==> Tally(Fields(s))[w] == multiset(Fields(s))[w] >= 1
    ensures "" !in Tally(Fields(s))
  {
  }

  /** An empty or all-space input gives the empty map, and only such an
      input does. */
  lemma WordCountEmpty(s: string)
    ensures Tally(Fields(s)) == map[] <==> AllSpace(s)
  {
    FieldsEmpty(s);
    var fs := Fields(s);
    if fs != [] {
      assert fs[0] in Tally(fs);
    }
  }

  /** Sum of the values of a map. */
  ghost function SumValues(m: map<string, int>): int
    decreases |m|
  {
    if m == map[] then 0
    else
      var k :| k in m;
      m[k] + SumValues(m - {k})
  }

  lemma {:induction false} SumValuesRemove(m: map<string, int>, k: string)
    requires k in m
    ensures SumValues(m) == m[k] + SumValues(m - {k})
    decreases |m|
  {
    var j :| j in m && SumValues(m) == m[j] + SumValues(m - {j});
    if j != k {
      SumValuesRemove(m - {j}, k);
      SumValuesRemove(m - {k}, j);
      assert m - {j} - {k} == m - {k} - {j};
    }
  }

  /** Incrementing one count, or adding a key with count 1, adds one to the
      sum. */
  lemma SumIncrement(t: map<string, int>, w: string)
    ensures SumValues(t[w := Get(t, w) + 1]) == SumValues(t) + 1
  {
    var t' := t[w := Get(t, w) + 1];
    SumValuesRemove(t', w);
    if w in t {
      SumValuesRemove(t, w);
      assert t' - {w} == t - {w};
    } else {
      assert t' - {w} == t;
    }
  }

  /** The counts add up to the number of fields. */
  lemma {:induction false} TallySum(ws: seq<string>)
    ensures SumValues(Tally(ws)) == |ws|
    decreases |ws|
  {
    if ws == [] {
      assert Tally(ws) == map[];
    } else {
      var k := |ws| - 1;
      assert ws[..k + 1] == ws;
      TallySum(ws[..k]);
      TallyPrefix(ws, k);
      SumIncrement(Tally(ws[..k]), ws[k]);
    }
  }

  lemma WordCountSum(s: string)
    ensures SumValues(Tally(Fields(s))) == |Fields(s)|
  {
    TallySum(Fields(s));
  }
}
