/**
 * Model of `str::split_whitespace` followed by `Iterator::last`, over strings
 * of Unicode scalar values. Scanning is done with indices into the string.
 */
module SplitWhitespace {
  import opened Wrappers

  /** `char::is_whitespace`: the characters with the Unicode White_Space property. */
  predicate IsWhitespace(c: char) {
    ('\U{9}' <= c <= '\U{D}') || c == ' ' || c == '\U{85}' || c == '\U{A0}' || c == '\U{1680}'
    || ('\U{2000}' <= c <= '\U{200A}') || c == '\U{2028}' || c == '\U{2029}'
    || c == '\U{202F}' || c == '\U{205F}' || c == '\U{3000}'
  }

  ghost predicate AllWhitespace(s: string) {
    forall i :: 0 <= i < |s| ==> IsWhitespace(s[i])
  }

  /** A token: a non-empty run of non-whitespace characters. */
  ghost predicate IsToken(w: string) {
    |w| > 0 && forall i :: 0 <= i < |w| ==> !IsWhitespace(w[i])
  }

  /** The first index at or after `i` that does not hold whitespace (or `|s|`). */
  function SkipWhitespace(s: string, i: nat): (j: nat)
    requires i <= |s|
    ensures i <= j <= |s|
    ensures forall k :: i <= k < j ==> IsWhitespace(s[k])
    ensures j == |s| || !IsWhitespace(s[j])
    decreases |s| - i
  {
    if i < |s| && IsWhitespace(s[i]) then SkipWhitespace(s, i + 1) else i
  }

  /** The first index at or after `i` that holds whitespace (or `|s|`). */
  function SkipWord(s: string, i: nat): (j: nat)
    requires i <= |s|
    ensures i <= j <= |s|
    ensures forall k :: i <= k < j ==> !IsWhitespace(s[k])
    ensures j == |s| || IsWhitespace(s[j])
    decreases |s| - i
  {
    if i < |s| && !IsWhitespace(s[i]) then SkipWord(s, i + 1) else i
  }

  /** The tokens of `s[i..]`, from left to right. */
  function TokensFrom(s: string, i: nat): (ts: seq<string>)
    requires i <= |s|
    ensures forall k :: 0 <= k < |ts| ==> IsToken(ts[k])
    decreases |s| - i
  {
    var b := SkipWhitespace(s, i);
    if b == |s| then []
    else
      var e := SkipWord(s, b);
      assert IsToken(s[b..e]) by {
        assert forall k :: 0 <= k < e - b ==> s[b..e][k] == s[b + k];
      }
      [s[b..e]] + TokensFrom(s, e)
  }

  /** The tokens `split_whitespace` yields, from left to right. */
  function Tokens(s: string): (ts: seq<string>)
    ensures forall k :: 0 <= k < |ts| ==> IsToken(ts[k])
  {
    TokensFrom(s, 0)
  }

  /** The index just past the last non-whitespace character before `j` (or 0). */
  function BackOverWhitespace(s: string, j: nat): (i: nat)
    requires j <= |s|
    ensures i <= j
    ensures forall k :: i <= k < j ==> IsWhitespace(s[k])
    ensures i == 0 || !IsWhitespace(s[i - 1])
  {
    if j > 0 && IsWhitespace(s[j - 1]) then BackOverWhitespace(s, j - 1) else j
  }

  /** The index just past the last whitespace character before `j` (or 0). */
  function BackOverWord(s: string, j: nat): (i: nat)
    requires j <= |s|
    ensures i <= j
    ensures forall k :: i <= k < j ==> !IsWhitespace(s[k])
    ensures i == 0 || IsWhitespace(s[i - 1])
  {
    if j > 0 && !IsWhitespace(s[j - 1]) then BackOverWord(s, j - 1) else j
  }

  /** The rightmost token of `s[..j]`, found by scanning from `j` towards the start. */
  function LastTokenBefore(s: string, j: nat): (r: Option<string>)
    requires j <= |s|
    decreases j
  {
    if j == 0 then None
    else if IsWhitespace(s[j - 1]) then LastTokenBefore(s, j - 1)
    else Some(s[BackOverWord(s, j)..j])
  }

  /**
   * `split_whitespace().last()`: the rightmost token of `s`, a maximal run of
   * non-whitespace characters followed only by whitespace up to the end.
   */
  function LastToken(s: string): (r: Option<string>)
    ensures r.Some? ==>
      exists b, e ::
        && 0 <= b < e <= |s| && r.value == s[b..e]
        && (b == 0 || IsWhitespace(s[b - 1]))
        && (forall k :: b <= k < e ==> !IsWhitespace(s[k]))
        && (forall k :: e <= k < |s| ==> IsWhitespace(s[k]))
  {
    LastTokenBeforeSkipsWhitespace(s, |s|);
    LastTokenBefore(s, |s|)
  }

  /** The backward scan first skips whitespace, then takes the word before it. */
  lemma {:induction false} LastTokenBeforeSkipsWhitespace(s: string, j: nat)
    requires j <= |s|
    ensures var e := BackOverWhitespace(s, j);
      LastTokenBefore(s, j) == if e == 0 then None else Some(s[BackOverWord(s, e)..e])
    decreases j
  {
    if j > 0 && IsWhitespace(s[j - 1]) {
      LastTokenBeforeSkipsWhitespace(s, j - 1);
    }
  }

  /**
   * Scanning backwards from the end of `s` stops at the end of the last token
   * of `s[i..]` and then at its start, provided `i` does not cut a token.
   */
  lemma {:induction false} BackwardScanFindsLastToken(s: string, i: nat)
    requires i <= |s|
    requires i == 0 || i == |s| || IsWhitespace(s[i])
    ensures var ts, e := TokensFrom(s, i), BackOverWhitespace(s, |s|);
      if ts == [] then e <= i else ts[|ts| - 1] == s[BackOverWord(s, e)..e]
    decreases |s| - i
  {
    var b := SkipWhitespace(s, i);
    if b < |s| {
      var e := SkipWord(s, b);
      BackwardScanFindsLastToken(s, e);
      if TokensFrom(s, e) == [] {
        var end := BackOverWhitespace(s, |s|);
        assert e > b && !IsWhitespace(s[e - 1]);
        assert end == e;
        var start := BackOverWord(s, end);
        assert b == 0 || IsWhitespace(s[b - 1]);
        assert start == b;
      }
    }
  }

  /** Scanning from the end finds the last of the tokens split from the front. */
  lemma LastTokenIsLastOfTokens(s: string)
    ensures var ts := Tokens(s);
      LastToken(s) == if ts == [] then None else Some(ts[|ts| - 1])
  {
    BackwardScanFindsLastToken(s, 0);
    LastTokenBeforeSkipsWhitespace(s, |s|);
  }

  /** No span of `sp` covers index `j`. */
  ghost predicate Outside(sp: seq<(nat, nat)>, j: nat) {
    forall k :: 0 <= k < |sp| ==> !(sp[k].0 <= j < sp[k].1)
  }

  /**
   * The tokens `ts` sit in `s[i..]` at the spans `sp`: each token is the slice
   * of its span, the spans come in increasing order with at least one
   * character between neighbours, and every character outside them is
   * whitespace.
   */
  ghost predicate SplitAt(s: string, i: nat, ts: seq<string>, sp: seq<(nat, nat)>)
    requires i <= |s|
  {
    && |sp| == |ts|
    && (forall k :: 0 <= k < |sp| ==> i <= sp[k].0 < sp[k].1 <= |s| && ts[k] == s[sp[k].0..sp[k].1])
    && (forall k :: 0 <= k < |sp| - 1 ==> sp[k].1 < sp[k + 1].0)
    && (forall j :: i <= j < |s| && Outside(sp, j) ==> IsWhitespace(s[j]))
  }

  /** A token run at `b..e`, after whitespace from `i`, extends a split of `s[e..]` to one of `s[i..]`. */
  lemma SplitAtCons(s: string, i: nat, b: nat, e: nat, rest: seq<string>, sp: seq<(nat, nat)>)
    requires i <= b < e <= |s| && SplitAt(s, e, rest, sp)
    requires forall k :: i <= k < b ==> IsWhitespace(s[k])
    requires e == |s| || IsWhitespace(s[e])
    requires forall k :: 0 <= k < |rest| ==> IsToken(rest[k])
    ensures SplitAt(s, i, [s[b..e]] + rest, [(b, e)] + sp)
  {
    var sp', ts := [(b, e)] + sp, [s[b..e]] + rest;
    if |sp| > 0 {
      assert IsToken(rest[0]);
      assert rest[0][0] == s[sp[0].0];
    }
    forall k | 0 <= k < |sp'|
      ensures i <= sp'[k].0 < sp'[k].1 <= |s| && ts[k] == s[sp'[k].0..sp'[k].1]
    {
      if k > 0 {
        assert sp'[k] == sp[k - 1] && ts[k] == rest[k - 1];
      }
    }
    forall k | 0 <= k < |sp'| - 1
      ensures sp'[k].1 < sp'[k + 1].0
    {
      assert sp'[k + 1] == sp[k];
      if k > 0 {
        assert sp'[k] == sp[k - 1];
      }
    }
    forall j | i <= j < |s| && Outside(sp', j)
      ensures IsWhitespace(s[j])
    {
      assert sp'[0] == (b, e);
      if j >= e {
        forall k | 0 <= k < |sp|
          ensures !(sp[k].0 <= j < sp[k].1)
        {
          assert sp'[k + 1] == sp[k];
        }
      }
    }
  }

  /** The tokens of `s[i..]` are its non-whitespace runs, in order, separated by whitespace. */
  lemma {:induction false} TokensFromSplit(s: string, i: nat)
    requires i <= |s|
    ensures exists sp :: SplitAt(s, i, TokensFrom(s, i), sp)
    decreases |s| - i
  {
    var b := SkipWhitespace(s, i);
    if b == |s| {
      assert TokensFrom(s, i) == [];
      assert SplitAt(s, i, [], []);
    } else {
      var e := SkipWord(s, b);
      var rest := TokensFrom(s, e);
      TokensFromSplit(s, e);
      var sp: seq<(nat, nat)> :| SplitAt(s, e, rest, sp);
      SplitAtCons(s, i, b, e, rest, sp);
      assert TokensFrom(s, i) == [s[b..e]] + rest;
    }
  }

  /**
   * `split_whitespace` yields exactly the maximal runs of non-whitespace
   * characters of `s`, from left to right.
   */
  lemma TokensSplit(s: string)
    ensures exists sp :: SplitAt(s, 0, Tokens(s), sp)
  {
    TokensFromSplit(s, 0);
    assert Tokens(s) == TokensFrom(s, 0);
  }

  /** `split_whitespace` yields nothing exactly when the string is all whitespace. */
  lemma TokensEmptyIff(s: string)
    ensures Tokens(s) == [] <==> AllWhitespace(s)
  {
  }

  /** The last token is a token, and there is none exactly when `s` is all whitespace. */
  lemma LastTokenShape(s: string)
    ensures LastToken(s).Some? ==> IsToken(LastToken(s).value)
    ensures LastToken(s).None? <==> AllWhitespace(s)
  {
    LastTokenIsLastOfTokens(s);
    TokensEmptyIff(s);
  }
}
