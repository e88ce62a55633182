/**
 The string helpers of the `Su` namespace that the path code calls. Their
 bodies are not part of this model; each is given here with the semantics
 the path code relies on:
 - replaceAll: left-to-right, non-overlapping replacement, written into the destination;
 - trimWs: removal of ASCII whitespace at both ends;
 - split: the maximal runs of non-delimiter characters (empty tokens are dropped);
 - join: plain concatenation, written with `+`.
 */
module StringUtils {

  /** ASCII whitespace as the C locale classifies it: space, \t, \n, \v, \f, \r. */
  predicate IsSpace(c: char) {
    c == ' ' || '\t' <= c <= '\r'
  }

  /** An ASCII letter. */
  predicate IsLetter(c: char) {
    'a' <= c <= 'z' || 'A' <= c <= 'Z'
  }

  /** Every character of `s` is `c`. */
  predicate AllChar(s: string, c: char) {
    forall i :: 0 <= i < |s| ==> s[i] == c
  }

  // ---------------------------------------------------------------------------
  // replaceAll

  /** Su::replaceAll(dest, s, from, to): every occurrence of `from`, scanning left to right
      and resuming after each replacement, becomes `to`. */
  function ReplaceAll(s: string, from: string, to: string): string
    requires from != []
    decreases |s|
  {
    if |s| < |from| then s
    else if s[..|from|] == from then to + ReplaceAll(s[|from|..], from, to)
    else [s[0]] + ReplaceAll(s[1..], from, to)
  }

  /** `r` is `s` with every `a` turned into `b` and every other character kept. */
  ghost predicate MapsChar(s: string, r: string, a: char, b: char) {
    |r| == |s| && forall i :: 0 <= i < |s| ==> r[i] == (if s[i] == a then b else s[i])
  }

  /** Replacing a one-character pattern by a one-character string works position by position. */
  lemma {:induction false} ReplaceCharMaps(s: string, a: char, b: char)
    ensures MapsChar(s, ReplaceAll(s, [a], [b]), a, b)
    decreases |s|
  {
    if |s| >= 1 {
      ReplaceCharMaps(s[1..], a, b);
      assert s[..1] == [a] <==> s[0] == a;
    }
  }

  /** After replacing `a` by a different `b`, no `a` is left. */
  lemma {:induction false} ReplaceCharRemoves(s: string, a: char, b: char)
    requires a != b
    ensures a !in ReplaceAll(s, [a], [b])
  {
    ReplaceCharMaps(s, a, b);
  }

  /** A string without `a` is left as it is. */
  lemma {:induction false} ReplaceCharIdentity(s: string, a: char, b: char)
    requires a !in s
    ensures ReplaceAll(s, [a], [b]) == s
  {
    ReplaceCharMaps(s, a, b);
    var r := ReplaceAll(s, [a], [b]);
    assert forall i :: 0 <= i < |s| ==> r[i] == s[i];
  }

  /** One-character replacement distributes over concatenation. */
  lemma {:induction false} ReplaceCharAppend(x: string, y: string, a: char, b: char)
    ensures ReplaceAll(x + y, [a], [b]) == ReplaceAll(x, [a], [b]) + ReplaceAll(y, [a], [b])
  {
    ReplaceCharMaps(x + y, a, b);
    ReplaceCharMaps(x, a, b);
    ReplaceCharMaps(y, a, b);
    var l, r := ReplaceAll(x + y, [a], [b]), ReplaceAll(x, [a], [b]) + ReplaceAll(y, [a], [b]);
    assert forall i :: 0 <= i < |l| ==> l[i] == r[i] by {
      forall i | 0 <= i < |l| ensures l[i] == r[i] {
        if i < |x| {
          assert (x + y)[i] == x[i];
        } else {
          assert (x + y)[i] == y[i - |x|];
        }
      }
    }
  }

  // ---------------------------------------------------------------------------
  // trimWs

  /** Drops the leading whitespace: the result is a suffix of `s`, everything dropped is
      whitespace, and the result does not start with whitespace. */
  function TrimLeft(s: string): (r: string)
    ensures |r| <= |s| && r == s[|s| - |r|..]
    ensures forall k :: 0 <= k < |s| - |r| ==> IsSpace(s[k])
    ensures r == [] || !IsSpace(r[0])
    decreases |s|
  {
    if s != [] && IsSpace(s[0]) then TrimLeft(s[1..]) else s
  }

  /** Drops the trailing whitespace: the result is a prefix of `s`, everything dropped is
      whitespace, and the result does not end with whitespace. */
  function TrimRight(s: string): (r: string)
    ensures |r| <= |s| && r == s[..|r|]
    ensures forall k :: |r| <= k < |s| ==> IsSpace(s[k])
    ensures r == [] || !IsSpace(r[|r| - 1])
    decreases |s|
  {
    if s != [] && IsSpace(s[|s| - 1]) then TrimRight(s[..|s| - 1]) else s
  }

  /** `s` neither starts nor ends with whitespace. */
  predicate Trimmed(s: string) {
    s == [] || (!IsSpace(s[0]) && !IsSpace(s[|s| - 1]))
  }

  /** Su::trimWs: whitespace removed at both ends; a string already trimmed is returned as is. */
  function TrimWs(s: string): (r: string)
    ensures Trimmed(r)
    ensures Trimmed(s) ==> r == s
  {
    var t := TrimRight(s);
    assert Trimmed(s) ==> t == s by {
      if Trimmed(s) && |t| < |s| {
        assert IsSpace(s[|s| - 1]);
      }
    }
    TrimLeft(t)
  }

  // ---------------------------------------------------------------------------
  // split and the two joins built on it

  /** Length of the token that starts `s`: the run of characters before the first `d`. */
  function TokenLength(s: string, d: char): (k: nat)
    ensures k <= |s|
    ensures forall i :: 0 <= i < k ==> s[i] != d
    ensures k < |s| ==> s[k] == d
    decreases |s|
  {
    if s == [] || s[0] == d then 0 else 1 + TokenLength(s[1..], d)
  }

  /** Su::split(dest, s, d), assumed to return the maximal runs of characters other than `d`,
      in order, so that empty tokens are dropped. Every token is non-empty and holds no `d`;
      `SplitEmpty` and `SplitAvoids` say when there are none and which characters occur. */
  function Split(s: string, d: char): (r: seq<string>)
    ensures forall t :: t in r ==> t != [] && d !in t
    decreases |s|
  {
    if s == [] then []
    else if s[0] == d then Split(s[1..], d)
    else
      var k := TokenLength(s, d);
      assert d !in s[..k];
      [s[..k]] + Split(s[k..], d)
  }

  /** There are no tokens exactly when `s` consists of delimiters only. */
  lemma {:induction false} SplitEmpty(s: string, d: char)
    ensures Split(s, d) == [] <==> AllChar(s, d)
    decreases |s|
  {
    if s != [] && s[0] == d {
      SplitEmpty(s[1..], d);
      assert AllChar(s, d) <==> AllChar(s[1..], d) by {
        assert forall j :: 0 <= j < |s| - 1 ==> s[1..][j] == s[j + 1];
        if AllChar(s[1..], d) {
          forall j | 0 <= j < |s| ensures s[j] == d {
            if j > 0 {
              assert s[j] == s[1..][j - 1];
            }
          }
        }
      }
    }
  }

  /** Tokens hold only characters of the split string: a character `s` avoids, every token avoids. */
  lemma {:induction false} SplitAvoids(s: string, d: char, c: char)
    requires c !in s
    ensures forall t :: t in Split(s, d) ==> c !in t
    decreases |s|
  {
    if s != [] {
      if s[0] == d {
        assert c !in s[1..] by {
          assert forall j :: 0 <= j < |s| - 1 ==> s[1..][j] == s[j + 1];
        }
        SplitAvoids(s[1..], d, c);
      } else {
        var k := TokenLength(s, d);
        assert c !in s[..k] && c !in s[k..] by {
          assert forall j :: 0 <= j < k ==> s[..k][j] == s[j];
          assert forall j :: 0 <= j < |s| - k ==> s[k..][j] == s[k + j];
        }
        SplitAvoids(s[k..], d, c);
      }
    }
  }

  /** A token of `d`: non-empty and free of `d`. */
  predicate IsToken(t: string, d: char) {
    t != [] && d !in t
  }

  /** The concatenation of `d + t` over the tokens, in order. */
  function Prefixed(ts: seq<string>, d: char): string {
    if ts == [] then [] else [d] + ts[0] + Prefixed(ts[1..], d)
  }

  /** The concatenation of `t + d` over the tokens, in order. */
  function Terminated(ts: seq<string>, d: char): string {
    if ts == [] then [] else ts[0] + [d] + Terminated(ts[1..], d)
  }

  /** `s` never holds two `d` in a row. */
  predicate NoDoubled(s: string, d: char) {
    forall i :: 0 <= i < |s| - 1 ==> !(s[i] == d && s[i + 1] == d)
  }

  /** A string in which splitting on `d` loses nothing: it is empty, or it neither starts
      nor ends with `d` and never holds two `d` in a row. */
  predicate NoEmptyTokens(s: string, d: char) {
    s == [] || (s[0] != d && s[|s| - 1] != d && NoDoubled(s, d))
  }

  /** A string that splitting on `d` and terminating each token with `d` rebuilds: it is
      empty, or it does not start with `d`, ends with `d` and never holds two `d` in a row. */
  predicate TerminatedTokens(s: string, d: char) {
    s == [] || (s[0] != d && s[|s| - 1] == d && NoDoubled(s, d))
  }

  lemma {:induction false} NoDoubledSuffix(s: string, d: char, j: nat)
    requires NoDoubled(s, d) && j <= |s|
    ensures NoDoubled(s[j..], d)
  {
    var r := s[j..];
    forall i | 0 <= i < |r| - 1 ensures !(r[i] == d && r[i + 1] == d) {
      assert r[i] == s[j + i] && r[i + 1] == s[j + i + 1];
    }
  }

  lemma {:induction false} TokenLengthPrefix(t: string, d: char, rest: string)
    requires d !in t
    requires rest == [] || rest[0] == d
    ensures TokenLength(t + rest, d) == |t|
    decreases |t|
  {
    if t != [] {
      assert (t + rest)[0] == t[0];
      assert (t + rest)[1..] == t[1..] + rest;
      TokenLengthPrefix(t[1..], d, rest);
    } else {
      assert t + rest == rest;
    }
  }

  /** A token followed by the delimiter is split off as the first token. */
  lemma {:induction false} SplitToken(t: string, d: char, rest: string)
    requires IsToken(t, d)
    ensures Split(t + [d] + rest, d) == [t] + Split(rest, d)
  {
    var s := t + [d] + rest;
    assert s == t + ([d] + rest);
    TokenLengthPrefix(t, d, [d] + rest);
    assert s[0] == t[0];
    assert s[..|t|] == t;
    assert s[|t|..] == [d] + rest;
    assert ([d] + rest)[1..] == rest;
  }

  /** A doubled delimiter between two tokens leaves no trace in the split. */
  lemma {:induction false} SplitDoubled(a: string, b: string, d: char)
    requires IsToken(a, d) && IsToken(b, d)
    ensures Split(a + [d] + [d] + b, d) == [a, b]
  {
    SplitToken(a, d, [d] + b);
    assert a + [d] + ([d] + b) == a + [d] + [d] + b;
    assert ([d] + b)[1..] == b;
    SplitSingle(b, d);
  }

  /** A token alone splits into itself. */
  lemma {:induction false} SplitSingle(t: string, d: char)
    requires IsToken(t, d)
    ensures Split(t, d) == [t]
  {
    TokenLengthPrefix(t, d, []);
    assert t + [] == t;
    assert t[..|t|] == t;
    assert t[|t|..] == [];
  }

  /** A leading token followed by delimiter-prefixed tokens splits back into those tokens. */
  lemma {:induction false} SplitConsPrefixed(t: string, ts: seq<string>, d: char)
    requires IsToken(t, d)
    requires forall e :: e in ts ==> IsToken(e, d)
    ensures Split(t + Prefixed(ts, d), d) == [t] + ts
    decreases |ts|
  {
    if ts == [] {
      assert t + Prefixed(ts, d) == t;
      SplitSingle(t, d);
    } else {
      var rest := ts[0] + Prefixed(ts[1..], d);
      assert Prefixed(ts, d) == [d] + rest;
      assert t + Prefixed(ts, d) == t + [d] + rest;
      SplitToken(t, d, rest);
      assert ts[0] in ts;
      assert forall e :: e in ts[1..] ==> e in ts;
      SplitConsPrefixed(ts[0], ts[1..], d);
      assert [ts[0]] + ts[1..] == ts;
    }
  }

  /** Splitting undoes Prefixed. */
  lemma {:induction false} SplitPrefixed(ts: seq<string>, d: char)
    requires forall e :: e in ts ==> IsToken(e, d)
    ensures Split(Prefixed(ts, d), d) == ts
  {
    if ts != [] {
      var rest := ts[0] + Prefixed(ts[1..], d);
      assert Prefixed(ts, d) == [d] + rest;
      assert Split([d] + rest, d) == Split(rest, d) by {
        assert ([d] + rest)[1..] == rest;
      }
      assert ts[0] in ts;
      assert forall e :: e in ts[1..] ==> e in ts;
      SplitConsPrefixed(ts[0], ts[1..], d);
      assert [ts[0]] + ts[1..] == ts;
    }
  }

  /** Splitting undoes Terminated. */
  lemma {:induction false} SplitTerminated(ts: seq<string>, d: char)
    requires forall e :: e in ts ==> IsToken(e, d)
    ensures Split(Terminated(ts, d), d) == ts
    decreases |ts|
  {
    if ts != [] {
      assert ts[0] in ts;
      assert forall e :: e in ts[1..] ==> e in ts;
      SplitToken(ts[0], d, Terminated(ts[1..], d));
      SplitTerminated(ts[1..], d);
      assert [ts[0]] + ts[1..] == ts;
    }
  }

  /** A string without empty tokens is its first token followed by the remaining tokens,
      each prefixed by the delimiter. */
  lemma {:induction false} SplitJoin(s: string, d: char)
    requires s != [] && NoEmptyTokens(s, d)
    ensures Split(s, d) != []
    ensures Split(s, d)[0] + Prefixed(Split(s, d)[1..], d) == s
    decreases |s|
  {
    var k := TokenLength(s, d);
    if k < |s| {
      SplitJoinRest(s, d);
      SplitJoin(s[k + 1..], d);
      SplitJoinStep(s, d);
    } else {
      SplitWhole(s, d);
    }
  }

  /** What follows the first delimiter of a string without empty tokens has none either. */
  lemma {:induction false} SplitJoinRest(s: string, d: char)
    requires s != [] && NoEmptyTokens(s, d) && TokenLength(s, d) < |s|
    ensures var rest := s[TokenLength(s, d) + 1..];
            rest != [] && NoEmptyTokens(rest, d)
  {
    var k := TokenLength(s, d);
    var rest := s[k + 1..];
    assert rest != [] && rest[0] != d by {
      assert s[|s| - 1] != d;
      assert !(s[k] == d && s[k + 1] == d);
    }
    NoDoubledSuffix(s, d, k + 1);
    assert rest[|rest| - 1] == s[|s| - 1];
  }

  /** The inductive step of SplitJoin: the first token, the delimiter, and the rest joined. */
  lemma {:induction false} SplitJoinStep(s: string, d: char)
    requires s != [] && s[0] != d && TokenLength(s, d) < |s|
    requires var rest := s[TokenLength(s, d) + 1..];
             Split(rest, d) != [] && Split(rest, d)[0] + Prefixed(Split(rest, d)[1..], d) == rest
    ensures Split(s, d) != []
    ensures Split(s, d)[0] + Prefixed(Split(s, d)[1..], d) == s
  {
    var k := TokenLength(s, d);
    var rest := s[k + 1..];
    SplitStep(s, d);
    JoinCons(s[..k], Split(rest, d), d, rest);
    assert s == s[..k] + ([d] + rest) by {
      assert s[k..] == [d] + rest;
      assert s == s[..k] + s[k..];
    }
  }

  /** Putting a token in front of a non-empty token list whose join is `rest`. */
  lemma {:induction false} JoinCons(t: string, ts: seq<string>, d: char, rest: string)
    requires ts != [] && ts[0] + Prefixed(ts[1..], d) == rest
    ensures ([t] + ts)[0] + Prefixed(([t] + ts)[1..], d) == t + ([d] + rest)
  {
    assert ([t] + ts)[0] == t && ([t] + ts)[1..] == ts;
    PrefixedCons(ts, d, rest);
  }

  /** Prefixed of a non-empty token list whose join is `rest`. */
  lemma {:induction false} PrefixedCons(ts: seq<string>, d: char, rest: string)
    requires ts != [] && ts[0] + Prefixed(ts[1..], d) == rest
    ensures Prefixed(ts, d) == [d] + rest
  {
    assert Prefixed(ts, d) == [d] + ts[0] + Prefixed(ts[1..], d);
    assert [d] + ts[0] + Prefixed(ts[1..], d) == [d] + (ts[0] + Prefixed(ts[1..], d));
  }

  /** When the first token ends before `s` does, splitting continues after the delimiter. */
  lemma {:induction false} SplitStep(s: string, d: char)
    requires s != [] && s[0] != d && TokenLength(s, d) < |s|
    ensures Split(s, d) == [s[..TokenLength(s, d)]] + Split(s[TokenLength(s, d) + 1..], d)
  {
    var k := TokenLength(s, d);
    assert s[k..][1..] == s[k + 1..];
  }

  /** A string without delimiters splits into itself. */
  lemma {:induction false} SplitWhole(s: string, d: char)
    requires s != [] && TokenLength(s, d) == |s|
    ensures Split(s, d) == [s]
  {
    assert s[0] != d;
    assert s[..|s|] == s && s[|s|..] == [];
  }

  /** A string made of '/'-terminated segments is rebuilt by terminating its split tokens. */
  lemma {:induction false} TerminatedSplit(s: string, d: char)
    requires TerminatedTokens(s, d)
    ensures Terminated(Split(s, d), d) == s
    decreases |s|
  {
    if s != [] {
      var k := TokenLength(s, d);
      assert k < |s|;
      var rest := s[k + 1..];
      assert rest == [] || rest[0] != d by {
        if rest != [] {
          assert !(s[k] == d && s[k + 1] == d);
        }
      }
      NoDoubledSuffix(s, d, k + 1);
      TerminatedSplit(rest, d);
      TerminatedSplitStep(s, d);
    }
  }

  /** The inductive step of TerminatedSplit. */
  lemma {:induction false} TerminatedSplitStep(s: string, d: char)
    requires s != [] && s[0] != d && TokenLength(s, d) < |s|
    requires Terminated(Split(s[TokenLength(s, d) + 1..], d), d) == s[TokenLength(s, d) + 1..]
    ensures Terminated(Split(s, d), d) == s
  {
    var k := TokenLength(s, d);
    var rest := s[k + 1..];
    SplitStep(s, d);
    TerminatedCons(s[..k], Split(rest, d), d);
    SplitAround(s, k);
  }

  lemma {:induction false} TerminatedCons(t: string, ts: seq<string>, d: char)
    ensures Terminated([t] + ts, d) == t + [d] + Terminated(ts, d)
  {
    assert ([t] + ts)[1..] == ts;
  }

  /** `s` is what comes before position k, the character at k, and what comes after. */
  lemma {:induction false} SplitAround(s: string, k: nat)
    requires k < |s|
    ensures s == s[..k] + [s[k]] + s[k + 1..]
  {
  }

  /** Terminated distributes over concatenation of token sequences. */
  lemma {:induction false} TerminatedAppend(a: seq<string>, b: seq<string>, d: char)
    ensures Terminated(a + b, d) == Terminated(a, d) + Terminated(b, d)
    decreases |a|
  {
    if a == [] {
      assert a + b == b;
    } else {
      assert (a + b)[0] == a[0];
      assert (a + b)[1..] == a[1..] + b;
      TerminatedAppend(a[1..], b, d);
    }
  }

  /** Prefixed distributes over concatenation of token sequences. */
  lemma {:induction false} PrefixedAppend(a: seq<string>, b: seq<string>, d: char)
    ensures Prefixed(a + b, d) == Prefixed(a, d) + Prefixed(b, d)
    decreases |a|
  {
    if a == [] {
      assert a + b == b;
    } else {
      assert (a + b)[0] == a[0];
      assert (a + b)[1..] == a[1..] + b;
      PrefixedAppend(a[1..], b, d);
    }
  }

  /** A character that is neither the delimiter nor in any token is not in Prefixed. */
  lemma {:induction false} PrefixedAvoids(ts: seq<string>, d: char, c: char)
    requires c != d && forall e :: e in ts ==> c !in e
    ensures c !in Prefixed(ts, d)
    decreases |ts|
  {
    if ts != [] {
      assert ts[0] in ts;
      assert forall e :: e in ts[1..] ==> e in ts;
      PrefixedAvoids(ts[1..], d, c);
    }
  }
}
