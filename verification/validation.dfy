/** Input rules: the alphanumeric token check shared by `validateStudentName`
    and `validateInput`, and the split of an input line on single spaces. */
module Validation {
  import opened Wrappers

  /** A character of the class `[0-9a-zA-Z]`. */
  predicate IsAlnum(c: char)
  {
    ('0' <= c <= '9') || ('a' <= c <= 'z') || ('A' <= c <= 'Z')
  }

  /** Position of the first character at or after `from` that matches the
      negated class `[^0-9a-zA-Z]`: the range a regular-expression search reports. */
  function FindDisallowed(s: string, from: nat): (r: Option<nat>)
    requires from <= |s|
    ensures r.None? <==> forall i :: from <= i < |s| ==> IsAlnum(s[i])
    ensures r.Some? ==> from <= r.value < |s| && !IsAlnum(s[r.value])
    ensures r.Some? ==> forall i :: from <= i < r.value ==> IsAlnum(s[i])
    decreases |s| - from
  {
    if from == |s| then None
    else if !IsAlnum(s[from]) then Some(from)
    else FindDisallowed(s, from + 1)
  }

  /** A name or subject token is accepted when the search for a disallowed
      character finds nothing and the token is not empty. */
  function IsValidToken(s: string): (b: bool)
    ensures b <==> |s| > 0 && forall i :: 0 <= i < |s| ==> IsAlnum(s[i])
  {
    FindDisallowed(s, 0).None? && |s| > 0
  }

  /** A token holding any character outside [0-9A-Za-z] (a space, a symbol, a
      non-ASCII letter), and the empty token, are rejected. */
  lemma InvalidTokens(s: string, i: nat)
    requires i < |s| && !IsAlnum(s[i])
    ensures !IsValidToken(s)
    ensures !IsValidToken("")
    ensures !IsValidToken("Kim Lee") && !IsValidToken("Kim!") && !IsValidToken("A+")
  {
  }

  /** Splitting on every single space, as `components(separatedBy: " ")`: two
      adjacent spaces give an empty token, and the empty line gives one empty token. */
  function Split(s: string): (ts: seq<string>)
    ensures |ts| >= 1
    ensures forall k :: 0 <= k < |ts| ==> ' ' !in ts[k]
  {
    if |s| == 0 then [""]
    else
      var rest := Split(s[1..]);
      if s[0] == ' ' then [""] + rest
      else [[s[0]] + rest[0]] + rest[1..]
  }

  /** The tokens put back together with single spaces between them. */
  function Join(ts: seq<string>): string
    requires |ts| >= 1
  {
    if |ts| == 1 then ts[0] else ts[0] + " " + Join(ts[1..])
  }

  /** Splitting loses nothing: joining the tokens gives back the line. */
  lemma {:induction false} JoinSplit(s: string)
    ensures Join(Split(s)) == s
    decreases |s|
  {
    if |s| > 0 {
      var rest := Split(s[1..]);
      JoinSplit(s[1..]);
      assert s == [s[0]] + s[1..];
      if s[0] == ' ' {
        assert ([""] + rest)[1..] == rest;
      } else {
        var ts := Split(s);
        assert ts[1..] == rest[1..];
        if |rest| > 1 {
          assert Join(rest) == rest[0] + " " + Join(rest[1..]);
        }
      }
    }
  }

  /** A token without spaces splits to itself. */
  lemma {:induction false} SplitToken(a: string)
    requires ' ' !in a
    ensures Split(a) == [a]
    decreases |a|
  {
    if |a| > 0 {
      SplitToken(a[1..]);
      assert a == [a[0]] + a[1..];
    }
  }

  /** A token followed by a space splits off as the first token. */
  lemma {:induction false} SplitCons(a: string, b: string)
    requires ' ' !in a
    ensures Split(a + " " + b) == [a] + Split(b)
    decreases |a|
  {
    if |a| == 0 {
      assert (a + " " + b)[1..] == b;
    } else {
      SplitCons(a[1..], b);
      assert (a + " " + b)[1..] == a[1..] + " " + b;
      assert a == [a[0]] + a[1..];
    }
  }

  /** Joining space-free tokens and splitting the line gives back the tokens. */
  lemma {:induction false} SplitJoin(ts: seq<string>)
    requires |ts| >= 1
    requires forall k :: 0 <= k < |ts| ==> ' ' !in ts[k]
    ensures Split(Join(ts)) == ts
    decreases |ts|
  {
    if |ts| == 1 {
      SplitToken(ts[0]);
    } else {
      SplitJoin(ts[1..]);
      SplitCons(ts[0], Join(ts[1..]));
      assert ts == [ts[0]] + ts[1..];
    }
  }
}
