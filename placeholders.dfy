/**
 * `replacePlaceholders` (helpers/replace-placeholders/replace-placeholders.helper.ts):
 * for each key in key order, rewrite the leftmost `%key%` with the key's value again
 * and again until no `%key%` is left.
 */
module Placeholders {
  /** The token the source searches for: `%${key}%`. */
  function Token(key: string): string
  {
    "%" + key + "%"
  }

  predicate OccursAt(s: string, t: string, i: int)
  {
    0 <= i && i + |t| <= |s| && s[i..i + |t|] == t
  }

  /** `s.indexOf(t, from)`: the leftmost occurrence at or after `from`, or -1. */
  function IndexOfFrom(s: string, t: string, from: nat): (r: int)
    ensures r == -1 ==> forall i :: from <= i ==> !OccursAt(s, t, i)
    ensures r != -1 ==> from <= r && OccursAt(s, t, r)
    ensures r != -1 ==> forall i :: from <= i < r ==> !OccursAt(s, t, i)
    decreases |s| - from
  {
    if from + |t| > |s| then -1
    else if s[from..from + |t|] == t then from
    else IndexOfFrom(s, t, from + 1)
  }

  /** `s.indexOf(t)`. */
  function IndexOf(s: string, t: string): int
  {
    IndexOfFrom(s, t, 0)
  }

  predicate Contains(s: string, t: string)
  {
    IndexOf(s, t) != -1
  }

  /** `s.replace(t, v)` with a string pattern: only the leftmost occurrence is rewritten. */
  function ReplaceFirst(s: string, t: string, v: string): string
  {
    var i := IndexOf(s, t);
    if i == -1 then s else s[..i] + v + s[i + |t|..]
  }

  function PercentCount(s: string): nat
  {
    multiset(s)['%']
  }

  /** `n` rounds of the source's `while` loop on one token: it stops early once no token is left. */
  function Iter(s: string, t: string, v: string, n: nat): string
    decreases n
  {
    if n == 0 || !Contains(s, t) then s else Iter(ReplaceFirst(s, t, v), t, v, n - 1)
  }

  /** The `while` loop on `s` ends: some number of rounds leaves no token. */
  ghost predicate Halts(s: string, t: string, v: string)
  {
    exists n: nat :: !Contains(Iter(s, t, v, n), t)
  }

  /** The least number of rounds at or after `m` that leaves no token, below a known bound. */
  ghost function LeastFrom(s: string, t: string, v: string, m: nat, bound: nat): (n: nat)
    requires m <= bound && !Contains(Iter(s, t, v, bound), t)
    ensures m <= n <= bound && !Contains(Iter(s, t, v, n), t)
    ensures forall j :: m <= j < n ==> Contains(Iter(s, t, v, j), t)
    decreases bound - m
  {
    if !Contains(Iter(s, t, v, m), t) then m
    else
      var n := LeastFrom(s, t, v, m + 1, bound);
      assert forall j :: m + 1 <= j < n ==> Contains(Iter(s, t, v, j), t);
      n
  }

  /** How many rounds the loop runs on `s`. */
  ghost function Steps(s: string, t: string, v: string): (n: nat)
    requires Halts(s, t, v)
    ensures !Contains(Iter(s, t, v, n), t)
    ensures forall j :: 0 <= j < n ==> Contains(Iter(s, t, v, j), t)
  {
    var bound: nat :| !Contains(Iter(s, t, v, bound), t);
    LeastFrom(s, t, v, 0, bound)
  }

  /** One round of a loop that halts leaves a loop that halts one round sooner. */
  lemma StepsDecrease(s: string, t: string, v: string)
    requires Halts(s, t, v) && Contains(s, t)
    ensures Halts(ReplaceFirst(s, t, v), t, v)
    ensures Steps(ReplaceFirst(s, t, v), t, v) == Steps(s, t, v) - 1
  {
    var n, s' := Steps(s, t, v), ReplaceFirst(s, t, v);
    assert Iter(s, t, v, 0) == s;
    assert n > 0;
    assert Iter(s, t, v, n) == Iter(s', t, v, n - 1);
    forall j | 0 <= j < n - 1 ensures Contains(Iter(s', t, v, j), t) {
      assert Iter(s, t, v, j + 1) == Iter(s', t, v, j);
    }
  }

  lemma ReplaceFirstPercent(s: string, t: string, v: string)
    requires Contains(s, t)
    ensures PercentCount(ReplaceFirst(s, t, v)) + PercentCount(t) == PercentCount(s) + PercentCount(v)
  {
    var i := IndexOf(s, t);
    assert s == s[..i] + t + s[i + |t|..];
  }

  /**
   * A value with fewer `%` characters than its key's token makes the loop end on any input:
   * each rewrite removes more `%` characters than it brings in.
   */
  lemma {:induction false} FewerPercentHalts(s: string, key: string, value: string)
    requires PercentCount(value) < PercentCount(Token(key))
    ensures Halts(s, Token(key), value)
    decreases PercentCount(s)
  {
    var t := Token(key);
    if !Contains(s, t) {
      assert !Contains(Iter(s, t, value, 0), t);
    } else {
      var s' := ReplaceFirst(s, t, value);
      ReplaceFirstPercent(s, t, value);
      FewerPercentHalts(s', key, value);
      var n: nat :| !Contains(Iter(s', t, value, n), t);
      assert Iter(s, t, value, n + 1) == Iter(s', t, value, n);
    }
  }

  /**
   * The inner `while` loop of the source on one key, for an input on which it ends: the
   * result is the first string of the rewrite sequence that holds no token.
   */
  function Rescan(s: string, t: string, v: string): (r: string)
    requires Halts(s, t, v)
    ensures r == Iter(s, t, v, Steps(s, t, v))
    ensures !Contains(r, t)
    ensures !Contains(s, t) ==> r == s
    decreases Steps(s, t, v)
  {
    if !Contains(s, t) then
      assert Iter(s, t, v, 0) == s;
      s
    else
      StepsDecrease(s, t, v);
      assert Iter(s, t, v, Steps(s, t, v)) == Iter(ReplaceFirst(s, t, v), t, v, Steps(s, t, v) - 1);
      Rescan(ReplaceFirst(s, t, v), t, v)
  }

  /** The loop ends for every key, each on the string the keys before it left. */
  ghost predicate AllHalt(s: string, replacements: seq<(string, string)>)
    decreases |replacements|
  {
    replacements == [] ||
    (var kv := replacements[0];
     Halts(s, Token(kv.0), kv.1) && AllHalt(Rescan(s, Token(kv.0), kv.1), replacements[1..]))
  }

  /**
   * The outer `forEach` over the keys of the replacement map, in key order. The last key's
   * loop runs last, so none of its tokens is left in the result.
   */
  function ReplaceKeys(s: string, replacements: seq<(string, string)>): (r: string)
    requires AllHalt(s, replacements)
    ensures replacements != [] ==> !Contains(r, Token(replacements[|replacements| - 1].0))
    decreases |replacements|
  {
    if replacements == [] then s
    else
      var kv, rest := replacements[0], replacements[1..];
      var s' := Rescan(s, Token(kv.0), kv.1);
      if rest == [] then s'
      else
        assert rest[|rest| - 1] == replacements[|replacements| - 1];
        ReplaceKeys(s', rest)
  }

  /** Values with fewer `%` characters than their tokens make every loop end. */
  lemma {:induction false} FewerPercentAllHalt(s: string, replacements: seq<(string, string)>)
    requires forall k :: 0 <= k < |replacements| ==> PercentCount(replacements[k].1) < PercentCount(Token(replacements[k].0))
    ensures AllHalt(s, replacements)
    decreases |replacements|
  {
    if replacements != [] {
      var kv := replacements[0];
      FewerPercentHalts(s, kv.0, kv.1);
      FewerPercentAllHalt(Rescan(s, Token(kv.0), kv.1), replacements[1..]);
    }
  }

  /**
   * The helper as written, on an input for which it returns. The result is the key-by-key
   * rewrite, and right after the last key is processed no token of that key remains.
   */
  method ReplacePlaceholders(input: string, replacements: seq<(string, string)>) returns (output: string)
    requires AllHalt(input, replacements)
    ensures output == ReplaceKeys(input, replacements)
    ensures replacements != [] ==> !Contains(output, Token(replacements[|replacements| - 1].0))
  {
    output := input;
    for i := 0 to |replacements|
      invariant AllHalt(output, replacements[i..])
      invariant ReplaceKeys(output, replacements[i..]) == ReplaceKeys(input, replacements)
      invariant 0 < i ==> !Contains(output, Token(replacements[i - 1].0))
    {
      var key, value := replacements[i].0, replacements[i].1;
      var search := Token(key);
      ghost var before := output;
      while IndexOf(output, search) != -1
        invariant Halts(output, search, value)
        invariant Rescan(output, search, value) == Rescan(before, search, value)
        decreases Steps(output, search, value)
      {
        StepsDecrease(output, search, value);
        output := ReplaceFirst(output, search, value);
      }
      assert replacements[i..][1..] == replacements[i + 1..];
    }
  }

  /** An empty replacement map leaves the input unchanged. */
  lemma ReplaceKeysEmpty(s: string)
    ensures AllHalt(s, [])
    ensures ReplaceKeys(s, []) == s
  {
  }

  /** An input that holds no token of any key is returned unchanged, whatever the values. */
  lemma {:induction false} ReplaceKeysWithoutTokens(s: string, replacements: seq<(string, string)>)
    requires forall k :: 0 <= k < |replacements| ==> !Contains(s, Token(replacements[k].0))
    ensures AllHalt(s, replacements)
    ensures ReplaceKeys(s, replacements) == s
    decreases |replacements|
  {
    if replacements != [] {
      var kv := replacements[0];
      assert !Contains(Iter(s, Token(kv.0), kv.1, 0), Token(kv.0));
      ReplaceKeysWithoutTokens(s, replacements[1..]);
    }
  }

  /** The leftmost occurrence is found by `indexOf`. */
  lemma IndexOfLeftmost(s: string, t: string, i: nat)
    requires OccursAt(s, t, i)
    requires forall j :: 0 <= j < i ==> !OccursAt(s, t, j)
    ensures IndexOf(s, t) == i
  {
  }

  /** One mismatching character rules out an occurrence. */
  lemma Mismatch(s: string, t: string, j: nat, k: nat)
    requires k < |t| && j + k < |s| && s[j + k] != t[k]
    ensures !OccursAt(s, t, j)
  {
    if j + |t| <= |s| {
      assert s[j..j + |t|][k] == s[j + k];
    }
  }

  /** A string without `%` holds no token. */
  lemma NoPercentNoToken(s: string, key: string)
    requires forall i :: 0 <= i < |s| ==> s[i] != '%'
    ensures !Contains(s, Token(key))
  {
    forall j | 0 <= j < |s| ensures !OccursAt(s, Token(key), j) {
      Mismatch(s, Token(key), j, 0);
    }
  }

  /** A single key whose token occurs once and whose rewrite leaves none is rewritten exactly once. */
  lemma RewrittenOnce(s: string, key: string, v: string, i: nat, r: string)
    requires OccursAt(s, Token(key), i)
    requires forall j :: 0 <= j < i ==> !OccursAt(s, Token(key), j)
    requires r == s[..i] + v + s[i + |Token(key)|..] && !Contains(r, Token(key))
    ensures AllHalt(s, [(key, v)])
    ensures ReplaceKeys(s, [(key, v)]) == r
  {
    var t := Token(key);
    IndexOfLeftmost(s, t, i);
    assert ReplaceFirst(s, t, v) == r;
    assert Iter(s, t, v, 1) == r;
    assert AllHalt(r, []);
  }

  /** replace-placeholders.helper.spec.ts: `'Hello %FIELDNAME%'` with `{FIELDNAME: 'John'}`. */
  lemma ReplaceExample()
    ensures AllHalt("Hello %FIELDNAME%", [("FIELDNAME", "John")])
    ensures ReplaceKeys("Hello %FIELDNAME%", [("FIELDNAME", "John")]) == "Hello John"
  {
    var s, t, r := "Hello %FIELDNAME%", Token("FIELDNAME"), "Hello John";
    assert OccursAt(s, t, 6);
    forall j | 0 <= j < 6 ensures !OccursAt(s, t, j) {
      Mismatch(s, t, j, 0);
    }
    NoPercentNoToken(r, "FIELDNAME");
    assert r == s[..6] + "John" + s[6 + |t|..];
    RewrittenOnce(s, "FIELDNAME", "John", 6, r);
  }

  /**
   * A value with more `%` characters than its token is handled too: `'x %A% y'` with
   * `{A: '10% to 20%'}` is rewritten once, and the loop ends.
   */
  lemma PercentValueExample()
    ensures AllHalt("x %A% y", [("A", "10% to 20%")])
    ensures ReplaceKeys("x %A% y", [("A", "10% to 20%")]) == "x 10% to 20% y"
  {
    var s, t, r := "x %A% y", Token("A"), "x 10% to 20% y";
    assert t == "%A%";
    assert OccursAt(s, t, 2);
    forall j | 0 <= j < 2 ensures !OccursAt(s, t, j) {
      Mismatch(s, t, j, 0);
    }
    forall j | 0 <= j < |r| ensures !OccursAt(r, t, j) {
      if r[j] != '%' {
        Mismatch(r, t, j, 0);
      } else if j + 1 < |r| {
        Mismatch(r, t, j, 1);
      }
    }
    assert r == s[..2] + "10% to 20%" + s[2 + |t|..];
    RewrittenOnce(s, "A", "10% to 20%", 2, r);
  }

  /** `n` copies of `A`. */
  function As(n: nat): string
  {
    seq(n, _ => 'A')
  }

  /** The strings the loop visits on `"%%A%%"` with `{A: "A%%A"}`: Visited(0) is the input. */
  function Visited(n: nat): string
  {
    As(n) + "%%A%" + As(n) + "%"
  }

  /** The string between Visited(n) and Visited(n + 1). */
  function Halfway(n: nat): string
  {
    As(n) + "%A%%" + As(n + 1) + "%"
  }

  lemma FirstRewrite(n: nat)
    ensures Contains(Visited(n), "%A%")
    ensures ReplaceFirst(Visited(n), "%A%", "A%%A") == Halfway(n)
  {
    var x, t := Visited(n), "%A%";
    assert x[n] == '%' && x[n + 1] == '%' && x[n + 2] == 'A' && x[n + 3] == '%';
    assert x[n + 1..n + 4] == t;
    forall j | 0 <= j < n + 1 ensures !OccursAt(x, t, j) {
      if j < n { Mismatch(x, t, j, 0); } else { Mismatch(x, t, j, 1); }
    }
    IndexOfLeftmost(x, t, n + 1);
    assert x[..n + 1] == As(n) + "%";
    assert x[n + 4..] == As(n) + "%";
    assert As(n) + "%" + "A%%A" + As(n) + "%" == Halfway(n) by {
      assert "A" + As(n) == As(n + 1);
    }
  }

  lemma SecondRewrite(n: nat)
    ensures Contains(Halfway(n), "%A%")
    ensures ReplaceFirst(Halfway(n), "%A%", "A%%A") == Visited(n + 1)
  {
    var y, t := Halfway(n), "%A%";
    assert y[n] == '%' && y[n + 1] == 'A' && y[n + 2] == '%';
    assert y[n..n + 3] == t;
    forall j | 0 <= j < n ensures !OccursAt(y, t, j) {
      Mismatch(y, t, j, 0);
    }
    IndexOfLeftmost(y, t, n);
    assert y[..n] == As(n);
    assert y[n + 3..] == "%" + As(n + 1) + "%";
    assert As(n) + "A" == As(n + 1);
  }

  /**
   * A value that does not contain its own token is not enough for the loop to end:
   * with `{A: "A%%A"}` two rewrites take Visited(n) to Visited(n + 1), and each of
   * those still contains `%A%`, so the loop on `"%%A%%"` never ends.
   */
  lemma RescanCanDiverge(n: nat)
    ensures !Contains("A%%A", Token("A"))
    ensures Visited(0) == "%%A%%"
    ensures Contains(Visited(n), Token("A"))
    ensures ReplaceFirst(ReplaceFirst(Visited(n), Token("A"), "A%%A"), Token("A"), "A%%A") == Visited(n + 1)
  {
    assert Token("A") == "%A%";
    DivergentValueHasNoToken();
    VisitedStart();
    FirstRewrite(n);
    SecondRewrite(n);
    var y := ReplaceFirst(Visited(n), "%A%", "A%%A");
    assert y == Halfway(n);
    assert ReplaceFirst(y, "%A%", "A%%A") == Visited(n + 1);
  }

  /** The loop starts from the input `"%%A%%"`. */
  lemma VisitedStart()
    ensures Visited(0) == "%%A%%"
  {
    assert As(0) == [];
  }

  /** The value `"A%%A"` does not contain the token `%A%`. */
  lemma DivergentValueHasNoToken()
    ensures !Contains("A%%A", "%A%")
  {
    var v := "A%%A";
    Mismatch(v, "%A%", 0, 0);
    Mismatch(v, "%A%", 1, 1);
    assert forall j :: 2 <= j ==> !OccursAt(v, "%A%", j);
  }

  /** A round that finds a token moves on to the rewritten string. */
  lemma IterStep(x: string, y: string, t: string, v: string, m: nat)
    requires m > 0 && Contains(x, t) && ReplaceFirst(x, t, v) == y
    ensures Iter(x, t, v, m) == Iter(y, t, v, m - 1)
  {
  }

  /** Every round of the loop on Visited(n) or Halfway(n) still leaves a token. */
  lemma {:induction false} StaysLooping(n: nat, m: nat)
    ensures Contains(Iter(Visited(n), "%A%", "A%%A", m), "%A%")
    ensures Contains(Iter(Halfway(n), "%A%", "A%%A", m), "%A%")
    decreases m
  {
    FirstRewrite(n);
    SecondRewrite(n);
    if m > 0 {
      StaysLooping(n, m - 1);
      StaysLooping(n + 1, m - 1);
      IterStep(Visited(n), Halfway(n), "%A%", "A%%A", m);
      IterStep(Halfway(n), Visited(n + 1), "%A%", "A%%A", m);
    }
  }

  /** So the helper never returns on `'%%A%%'` with `{A: 'A%%A'}`. */
  lemma DivergentInputNeverHalts()
    ensures !Halts("%%A%%", Token("A"), "A%%A")
    ensures !AllHalt("%%A%%", [("A", "A%%A")])
  {
    assert Token("A") == "%A%";
    assert Visited(0) == "%%A%%";
    forall m: nat ensures Contains(Iter("%%A%%", "%A%", "A%%A", m), "%A%") {
      StaysLooping(0, m);
    }
  }
}
