/**
  Tokenising of a command body, as `Handler::message` does it: Rust's
  `str::split(" ")` collected into a vector (every single space is a
  boundary, so a trailing or doubled space yields an empty token), and
  `to_lowercase` on the command token.
 */
module Tokens {

  const SEPARATOR: char := ' '

  predicate NoSpace(t: string) {
    forall i :: 0 <= i < |t| ==> t[i] != SEPARATOR
  }

  predicate NoSpaceTokens(ts: seq<string>) {
    forall k :: 0 <= k < |ts| ==> NoSpace(ts[k])
  }

  /** `split(" ")`: the maximal space-free pieces between single spaces. */
  function Split(s: string): (ts: seq<string>)
    ensures |ts| >= 1
    decreases |s|
  {
    if s == [] then [""]
    else if s[0] == SEPARATOR then [""] + Split(s[1..])
    else
      var rest := Split(s[1..]);
      [[s[0]] + rest[0]] + rest[1..]
  }

  /** The inverse of `Split`: the tokens glued back with one space between each two. */
  function Join(ts: seq<string>): (s: string)
    requires |ts| >= 1
    decreases |ts|
  {
    if |ts| == 1 then ts[0] else ts[0] + [SEPARATOR] + Join(ts[1..])
  }

  /** Every token of a split is free of spaces. */
  lemma {:induction false} SplitTokensHaveNoSpace(s: string)
    ensures NoSpaceTokens(Split(s))
    decreases |s|
  {
    if s != [] {
      SplitTokensHaveNoSpace(s[1..]);
    }
  }

  /** Joining the tokens of a split gives back the text. */
  lemma {:induction false} JoinSplit(s: string)
    ensures Join(Split(s)) == s
    decreases |s|
  {
    if s == [] {
    } else if s[0] == SEPARATOR {
      JoinSplit(s[1..]);
      assert Split(s)[1..] == Split(s[1..]);
    } else {
      var rest := Split(s[1..]);
      JoinSplit(s[1..]);
      var ts := Split(s);
      assert ts[0] == [s[0]] + rest[0];
      if |rest| == 1 {
        assert s == [s[0]] + s[1..];
      } else {
        assert ts[1..] == rest[1..];
        assert s[1..] == rest[0] + [SEPARATOR] + Join(rest[1..]);
        assert s == [s[0]] + s[1..];
      }
    }
  }

  /** A space-free text is one token. */
  lemma {:induction false} SplitWord(a: string)
    requires NoSpace(a)
    ensures Split(a) == [a]
    decreases |a|
  {
    if a != [] {
      SplitWord(a[1..]);
      assert [a[0]] + a[1..] == a;
    }
  }

  /** A space-free word followed by a space splits off as the first token. */
  lemma {:induction false} SplitCons(a: string, b: string)
    requires NoSpace(a)
    ensures Split(a + [SEPARATOR] + b) == [a] + Split(b)
    decreases |a|
  {
    var s := a + [SEPARATOR] + b;
    if a == [] {
      assert s[1..] == b;
    } else {
      assert s[1..] == a[1..] + [SEPARATOR] + b;
      SplitCons(a[1..], b);
      assert [a[0]] + a[1..] == a;
    }
  }

  /** Splitting undoes joining space-free tokens. */
  lemma {:induction false} SplitJoin(ts: seq<string>)
    requires |ts| >= 1 && NoSpaceTokens(ts)
    ensures Split(Join(ts)) == ts
    decreases |ts|
  {
    if |ts| == 1 {
      SplitWord(ts[0]);
    } else {
      SplitJoin(ts[1..]);
      SplitCons(ts[0], Join(ts[1..]));
    }
  }

  /** Adding a token at the end of a join adds a space and the token. */
  lemma {:induction false} JoinSnoc(ts: seq<string>, t: string)
    requires |ts| >= 1
    ensures Join(ts + [t]) == Join(ts) + [SEPARATOR] + t
    decreases |ts|
  {
    if |ts| > 1 {
      assert (ts + [t])[1..] == ts[1..] + [t];
      JoinSnoc(ts[1..], t);
    }
  }

  /** Adding a character to the last token of a join adds it at the end. */
  lemma {:induction false} JoinExtendLast(ps: seq<string>, cur: string, c: char)
    ensures Join(ps + [cur + [c]]) == Join(ps + [cur]) + [c]
    decreases |ps|
  {
    if ps != [] {
      assert (ps + [cur + [c]])[1..] == ps[1..] + [cur + [c]];
      assert (ps + [cur])[1..] == ps[1..] + [cur];
      JoinExtendLast(ps[1..], cur, c);
    }
  }

  /**
    The collecting loop behind `split(" ").collect()`: walk the text once,
    closing the current token at each space.
   */
  method SplitOnSpaces(s: string) returns (tokens: seq<string>)
    ensures tokens == Split(s)
    ensures |tokens| >= 1 && NoSpaceTokens(tokens) && Join(tokens) == s
  {
    var done: seq<string> := [];
    var current: string := "";
    var i := 0;
    while i < |s|
      invariant 0 <= i <= |s|
      invariant NoSpaceTokens(done) && NoSpace(current)
      invariant Join(done + [current]) == s[..i]
    {
      if s[i] == SEPARATOR {
        JoinSnoc(done + [current], "");
        done, current := done + [current], "";
      } else {
        JoinExtendLast(done, current, s[i]);
        current := current + [s[i]];
      }
      assert s[..i + 1] == s[..i] + [s[i]];
      i := i + 1;
    }
    tokens := done + [current];
    assert s[..i] == s;
    assert forall k :: 0 <= k < |done| ==> tokens[k] == done[k];
    SplitJoin(tokens);
  }

  /** ASCII case folding of one character; every other character is kept. */
  function LowerChar(c: char): (r: char)
    ensures 'A' <= c <= 'Z' ==> r as int == c as int + 32
    ensures !('A' <= c <= 'Z') ==> r == c
  {
    if 'A' <= c <= 'Z' then (c as int + 32) as char else c
  }

  /** `to_lowercase`, restricted to the ASCII letters. */
  function Lower(s: string): (r: string)
    ensures |r| == |s|
    ensures forall i :: 0 <= i < |s| ==> r[i] == LowerChar(s[i])
  {
    seq(|s|, i requires 0 <= i < |s| => LowerChar(s[i]))
  }

  /** A token lowercases to "yp" exactly when it is one of the four spellings of it. */
  lemma LowerIsYp(t: string)
    ensures Lower(t) == "yp" <==> t in {"yp", "yP", "Yp", "YP"}
  {
    if Lower(t) == "yp" {
      assert |t| == 2;
      assert t[0] == 'y' || t[0] == 'Y';
      assert t[1] == 'p' || t[1] == 'P';
      assert t == [t[0], t[1]];
    }
  }
}
