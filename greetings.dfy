/**
  The `greetings` package: `Hello` greets one non-empty name with one of
  three formats, `Hellos` builds a name-to-greeting map and fails on the
  first empty name. The random format choice, `rand.Intn(3)`, is a
  parameter: any index in `[0, 3)`.
 */
module Greetings {
  import opened GoBasics

  const Formats: seq<string> := ["Hi, %v. Welcome!", "Great to see you, %v!", "Hail, %v! Well met!"]

  /** The text of `errors.New("name cannot be empty")`. */
  const EmptyNameError: string := "name cannot be empty"

  /** `fmt.Sprintf(format, arg)` for a format whose one verb is `%v` and
      whose argument is a string: the verb is replaced by the argument. */
  function Sprintf(format: string, arg: string): string
  {
    if |format| < 2 then format
    else if format[0] == '%' && format[1] == 'v' then arg + format[2..]
    else [format[0]] + Sprintf(format[1..], arg)
  }

  /** Text before the verb comes out unchanged, then the argument, then the
      text after the verb. */
  lemma {:induction false} SprintfSplice(pre: string, post: string, arg: string)
    requires '%' !in pre
    ensures Sprintf(pre + "%v" + post, arg) == pre + arg + post
  {
    var f := pre + "%v" + post;
    if pre == [] {
      assert f[2..] == post;
    } else {
      assert f[0] == pre[0] && f[1..] == pre[1..] + "%v" + post;
      SprintfSplice(pre[1..], post, arg);
      assert [pre[0]] + (pre[1..] + arg + post) == pre + arg + post;
    }
  }

  /** `randomMessageFormat`, with the random index supplied by the caller. */
  function RandomMessageFormat(pick: nat): (f: string)
    requires pick < |Formats|
    ensures f in Formats
  {
    Formats[pick]
  }

  /** The three greetings written out, for a name `name`. */
  function Greeting(pick: nat, name: string): string
    requires pick < |Formats|
  {
    if pick == 0 then "Hi, " + name + ". Welcome!"
    else if pick == 1 then "Great to see you, " + name + "!"
    else "Hail, " + name + "! Well met!"
  }

  /** What `Hello` returns: the message and the error (`None` is nil). */
  datatype Reply = Reply(message: string, err: Option<string>)

  /** `Hello`: an empty name is an error with an empty message; otherwise the
      chosen format with the name substituted and a nil error. */
  function Hello(name: string, pick: nat): (r: Reply)
    requires pick < |Formats|
    ensures name == "" ==> r == Reply("", Some(EmptyNameError))
    ensures name != "" ==> r == Reply(Greeting(pick, name), None)
  {
    if name == "" then Reply("", Some(EmptyNameError))
    else
      FormatGreeting(pick, name);
      Reply(Sprintf(RandomMessageFormat(pick), name), None)
  }

  /** Each format, filled in, is the corresponding greeting. */
  lemma FormatGreeting(pick: nat, name: string)
    requires pick < |Formats|
    ensures Sprintf(RandomMessageFormat(pick), name) == Greeting(pick, name)
  {
    if pick == 0 {
      assert Formats[0] == "Hi, " + "%v" + ". Welcome!";
      SprintfSplice("Hi, ", ". Welcome!", name);
    } else if pick == 1 {
      assert Formats[1] == "Great to see you, " + "%v" + "!";
      SprintfSplice("Great to see you, ", "!", name);
    } else {
      assert Formats[2] == "Hail, " + "%v" + "! Well met!";
      SprintfSplice("Hail, ", "! Well met!", name);
    }
  }

  /** `msg` holds `name` at index `i` as a whole word: preceded by a space
      and followed by `.` or `!`. */
  predicate WordAt(msg: string, name: string, i: int) {
    && 0 < i && i + |name| < |msg|
    && msg[i..i + |name|] == name
    && msg[i - 1] == ' '
    && msg[i + |name|] in {'.', '!'}
  }

  /** The greeting holds the name as a whole word. */
  lemma GreetingHasName(pick: nat, name: string)
    requires pick < |Formats|
    ensures exists i :: WordAt(Greeting(pick, name), name, i)
  {
    var g := Greeting(pick, name);
    var prefix := if pick == 0 then "Hi, " else if pick == 1 then "Great to see you, " else "Hail, ";
    var i := |prefix|;
    assert g[..i] == prefix && g[i..i + |name|] == name;
    assert g[i - 1] == prefix[i - 1];
    assert WordAt(g, name, i);
  }

  /** `k` is the last index at which `s[k]` occurs in `s`. */
  ghost predicate LastIndex(s: seq<string>, k: int)
    requires 0 <= k < |s|
  {
    forall j :: k < j < |s| ==> s[j] != s[k]
  }

  /** `Hellos`: stops at the first empty name and returns a nil map with the
      error; otherwise maps every name to its greeting, a later duplicate
      overwriting an earlier one. `picks[k]` is the random index drawn for
      `names[k]`. */
  method Hellos(names: seq<string>, picks: seq<nat>) returns (messages: Option<map<string, string>>, err: Option<string>)
    requires |picks| == |names|
    requires forall k :: 0 <= k < |picks| ==> picks[k] < |Formats|
    ensures "" in names ==> messages == None && err == Some(EmptyNameError)
    ensures "" !in names ==> err == None && messages.Some?
    ensures names == [] ==> messages == Some(map[]) && err == None
    ensures "" !in names ==> messages.value.Keys == set n | n in names
    ensures "" !in names ==> forall k :: 0 <= k < |names| && LastIndex(names, k) ==>
              messages.value[names[k]] == Greeting(picks[k], names[k])
  {
    var m: map<string, string> := map[];
    for i := 0 to |names|
      invariant "" !in names[..i]
      invariant forall n :: n in m <==> n in names[..i]
      invariant forall k :: 0 <= k < i && LastIndex(names[..i], k) ==> m[names[k]] == Greeting(picks[k], names[k])
    {
      var r := Hello(names[i], picks[i]);
      if r.err.Some? {
        return None, r.err;
      }
      var m' := m[names[i] := r.message];
      HellosStep(names, picks, i, m, r.message, m');
      m := m';
    }
    assert names[..|names|] == names;
    assert m.Keys == set n | n in names;
    return Some(m), None;
  }

  /** Storing the greeting for `names[i]` keeps the loop invariant of
      `Hellos`. */
  lemma HellosStep(names: seq<string>, picks: seq<nat>, i: int, m: map<string, string>, msg: string, m': map<string, string>)
    requires 0 <= i < |names| == |picks|
    requires forall k :: 0 <= k < |picks| ==> picks[k] < |Formats|
    requires forall n :: n in m <==> n in names[..i]
    requires forall k :: 0 <= k < i && LastIndex(names[..i], k) ==> m[names[k]] == Greeting(picks[k], names[k])
    requires msg == Greeting(picks[i], names[i]) && m' == m[names[i] := msg]
    ensures forall n :: n in m' <==> n in names[..i + 1]
    ensures forall k :: 0 <= k < i + 1 && LastIndex(names[..i + 1], k) ==> m'[names[k]] == Greeting(picks[k], names[k])
  {
    assert names[..i + 1] == names[..i] + [names[i]];
    forall k | 0 <= k < i + 1 && LastIndex(names[..i + 1], k)
      ensures m'[names[k]] == Greeting(picks[k], names[k])
    {
      if k < i {
        assert names[..i + 1][i] == names[i];
        assert LastIndex(names[..i], k) && names[k] != names[i];
      }
    }
  }

  /** On success every value of `Hellos` is a greeting of its key. */
  lemma HellosValuesAreGreetings(names: seq<string>, picks: seq<nat>, m: map<string, string>)
    requires |picks| == |names|
    requires forall k :: 0 <= k < |picks| ==> picks[k] < |Formats|
    requires "" !in names && m.Keys == set n | n in names
    requires forall k :: 0 <= k < |names| && LastIndex(names, k) ==> m[names[k]] == Greeting(picks[k], names[k])
    ensures forall n :: n in m ==> exists p :: 0 <= p < |Formats| && m[n] == Greeting(p, n) && m[n] == Hello(n, p).message
  {
    forall n | n in m
      ensures exists p :: 0 <= p < |Formats| && m[n] == Greeting(p, n) && m[n] == Hello(n, p).message
    {
      var k :| 0 <= k < |names| && names[k] == n && LastIndex(names, k) by {
        var k0 :| 0 <= k0 < |names| && names[k0] == n;
        LastOccurrence(names, k0);
      }
      assert m[n] == Greeting(picks[k], n) && n != "";
    }
  }

  lemma {:induction false} LastOccurrence(s: seq<string>, k0: int)
    requires 0 <= k0 < |s|
    ensures exists k :: k0 <= k < |s| && s[k] == s[k0] && LastIndex(s, k)
    decreases |s| - k0
  {
    if !LastIndex(s, k0) {
      var j :| k0 < j < |s| && s[j] == s[k0];
      LastOccurrence(s, j);
    }
  }
}
