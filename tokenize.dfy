/**
 * Per-document tokenization (`process_text`): lowercase, segment, keep the
 * surfaces of accepted tokens in order. Case mapping and segmentation are
 * library code the model cannot see, so they are parameters.
 */
module Tokenize {
  import opened TokenFilter

  /** Everything `process_text` reads besides the text itself. */
  datatype Config = Config(
    lower: string -> string,        // str.lower
    segment: string -> seq<Token>,  // pynlpir.segment(text, pos_names='child')
    stopWords: seq<string>,         // stop_words, a list
    stopTypes: set<string>)         // stop_words_type, a set

  predicate Accepted(t: Token, c: Config)
  {
    Accept(t, c.stopWords, c.stopTypes)
  }

  /** `filter` as the condition of the comprehension. */
  function Acceptor(c: Config): Token -> bool
  {
    t => Accepted(t, c)
  }

  /** `[word[0] for word in tokens if keep(word)]`. */
  function KeepSurfaces(tokens: seq<Token>, keep: Token -> bool): seq<string>
  {
    if tokens == [] then []
    else (if keep(tokens[0]) then [tokens[0].surface] else []) + KeepSurfaces(tokens[1..], keep)
  }

  /** The comprehension of `process_text`, with `filter` as the condition. */
  function FilterTokens(tokens: seq<Token>, c: Config): seq<string>
  {
    KeepSurfaces(tokens, Acceptor(c))
  }

  /** `process_text(text)`. */
  function ProcessText(text: string, c: Config): seq<string>
  {
    FilterTokens(c.segment(c.lower(text)), c)
  }

  /**
   * `idx` picks out, in increasing order, exactly the positions of `tokens`
   * that `keep` holds of, and `r` lists their surfaces.
   */
  ghost predicate Selects(idx: seq<nat>, tokens: seq<Token>, r: seq<string>, keep: Token -> bool)
  {
    && |idx| == |r|
    && (forall m :: 0 <= m < |idx| ==> idx[m] < |tokens| && keep(tokens[idx[m]]) && r[m] == tokens[idx[m]].surface)
    && (forall m, m' :: 0 <= m < m' < |idx| ==> idx[m] < idx[m'])
    && (forall j :: 0 <= j < |tokens| && keep(tokens[j]) ==> j in idx)
  }

  /** `Selects` with the acceptance filter as the condition. */
  ghost predicate SelectsAccepted(idx: seq<nat>, tokens: seq<Token>, r: seq<string>, c: Config)
  {
    Selects(idx, tokens, r, Acceptor(c))
  }

  lemma {:induction false} KeepSurfacesIndices(tokens: seq<Token>, keep: Token -> bool) returns (idx: seq<nat>)
    ensures Selects(idx, tokens, KeepSurfaces(tokens, keep), keep)
  {
    if tokens == [] {
      idx := [];
    } else {
      var rest := KeepSurfacesIndices(tokens[1..], keep);
      var tail := KeepSurfaces(tokens[1..], keep);
      var shifted := ShiftSelects(tokens, rest, tail, keep);
      if keep(tokens[0]) {
        idx := [0] + shifted;
        assert KeepSurfaces(tokens, keep) == [tokens[0].surface] + tail;
        PrependSelects(tokens, shifted, tail, keep);
      } else {
        idx := shifted;
        assert KeepSurfaces(tokens, keep) == tail;
        SkipSelects(tokens, shifted, tail, keep);
      }
    }
  }

  /** Every position one further on. */
  function Shift(rest: seq<nat>): (shifted: seq<nat>)
    ensures |shifted| == |rest|
    ensures forall m :: 0 <= m < |rest| ==> shifted[m] == rest[m] + 1
  {
    if rest == [] then [] else [rest[0] + 1] + Shift(rest[1..])
  }

  /** The positions selected in `tokens[1..]`, as positions of `tokens`. */
  lemma ShiftSelects(tokens: seq<Token>, rest: seq<nat>, tail: seq<string>, keep: Token -> bool)
    returns (shifted: seq<nat>)
    requires tokens != []
    requires Selects(rest, tokens[1..], tail, keep)
    ensures |shifted| == |tail|
    ensures forall m :: 0 <= m < |shifted| ==>
              1 <= shifted[m] < |tokens| && keep(tokens[shifted[m]]) && tail[m] == tokens[shifted[m]].surface
    ensures forall m, m' :: 0 <= m < m' < |shifted| ==> shifted[m] < shifted[m']
    ensures forall j :: 1 <= j < |tokens| && keep(tokens[j]) ==> j in shifted
  {
    shifted := Shift(rest);
    forall m | 0 <= m < |shifted|
      ensures 1 <= shifted[m] < |tokens| && keep(tokens[shifted[m]]) && tail[m] == tokens[shifted[m]].surface
    {
      assert shifted[m] == rest[m] + 1;
      assert rest[m] < |tokens[1..]|;
      assert tokens[shifted[m]] == tokens[1..][rest[m]];
    }
    forall m, m' | 0 <= m < m' < |shifted| ensures shifted[m] < shifted[m'] {
      assert rest[m] < rest[m'];
    }
    forall j | 1 <= j < |tokens| && keep(tokens[j]) ensures j in shifted {
      assert tokens[1..][j - 1] == tokens[j];
      assert j - 1 in rest;
      var m :| 0 <= m < |rest| && rest[m] == j - 1;
      assert shifted[m] == j;
    }
  }

  /** The rejecting step of `KeepSurfacesIndices`: position 0 is left out. */
  lemma SkipSelects(tokens: seq<Token>, shifted: seq<nat>, tail: seq<string>, keep: Token -> bool)
    requires tokens != [] && !keep(tokens[0]) && |shifted| == |tail|
    requires forall m :: 0 <= m < |shifted| ==>
               1 <= shifted[m] < |tokens| && keep(tokens[shifted[m]]) && tail[m] == tokens[shifted[m]].surface
    requires forall m, m' :: 0 <= m < m' < |shifted| ==> shifted[m] < shifted[m']
    requires forall j :: 1 <= j < |tokens| && keep(tokens[j]) ==> j in shifted
    ensures Selects(shifted, tokens, tail, keep)
  {
    forall j | 0 <= j < |tokens| && keep(tokens[j]) ensures j in shifted {
      assert j != 0;
    }
  }

  /** The accepting step of `KeepSurfacesIndices`: position 0 goes in front. */
  lemma PrependSelects(tokens: seq<Token>, shifted: seq<nat>, tail: seq<string>, keep: Token -> bool)
    requires tokens != [] && keep(tokens[0]) && |shifted| == |tail|
    requires forall m :: 0 <= m < |shifted| ==>
               1 <= shifted[m] < |tokens| && keep(tokens[shifted[m]]) && tail[m] == tokens[shifted[m]].surface
    requires forall m, m' :: 0 <= m < m' < |shifted| ==> shifted[m] < shifted[m']
    requires forall j :: 1 <= j < |tokens| && keep(tokens[j]) ==> j in shifted
    ensures Selects([0] + shifted, tokens, [tokens[0].surface] + tail, keep)
  {
    var idx, r := [0] + shifted, [tokens[0].surface] + tail;
    forall m | 0 <= m < |idx|
      ensures idx[m] < |tokens| && keep(tokens[idx[m]]) && r[m] == tokens[idx[m]].surface
    {
      if m > 0 {
        assert idx[m] == shifted[m - 1] && r[m] == tail[m - 1];
      }
    }
    forall m, m' | 0 <= m < m' < |idx| ensures idx[m] < idx[m'] {
      assert idx[m'] == shifted[m' - 1];
      if m > 0 {
        assert idx[m] == shifted[m - 1];
      }
    }
    forall j | 0 <= j < |tokens| && keep(tokens[j]) ensures j in idx {
      if j > 0 {
        assert j in shifted;
      }
    }
  }

  /**
   * The output of `process_text` is the subsequence of the segmenter's
   * surfaces (of the lowered text) at exactly the accepted tokens, in their
   * original order: nothing accepted is dropped and nothing rejected is kept.
   */
  lemma ProcessTextSelects(text: string, c: Config)
    ensures exists idx :: SelectsAccepted(idx, c.segment(c.lower(text)), ProcessText(text, c), c)
  {
    var tokens := c.segment(c.lower(text));
    var idx := KeepSurfacesIndices(tokens, Acceptor(c));
    assert ProcessText(text, c) == KeepSurfaces(tokens, Acceptor(c));
    assert SelectsAccepted(idx, tokens, ProcessText(text, c), c);
  }

  /** Every kept word is an accepted surface, so in particular it has 2 to 9 characters. */
  lemma {:induction false} FilterTokensAccepted(tokens: seq<Token>, c: Config)
    ensures |FilterTokens(tokens, c)| <= |tokens|
    ensures forall w :: w in FilterTokens(tokens, c) ==>
              2 <= |w| <= 9 && w !in c.stopWords && exists t :: t in tokens && t.surface == w && Accepted(t, c)
  {
    if tokens != [] {
      FilterTokensAccepted(tokens[1..], c);
      if Accepted(tokens[0], c) {
        AcceptedShape(tokens[0], c.stopWords, c.stopTypes);
      }
      forall w | w in FilterTokens(tokens[1..], c)
        ensures exists t :: t in tokens && t.surface == w && Accepted(t, c)
      {
        var t :| t in tokens[1..] && t.surface == w && Accepted(t, c);
        assert t in tokens;
      }
    }
  }

  /** A text the segmenter splits into nothing yields an empty token list. */
  lemma EmptySegmentation(text: string, c: Config)
    requires c.segment(c.lower(text)) == []
    ensures ProcessText(text, c) == []
  {
  }

  /** Filtering distributes over concatenation of segmenter outputs. */
  lemma {:induction false} FilterTokensAppend(a: seq<Token>, b: seq<Token>, c: Config)
    ensures FilterTokens(a + b, c) == FilterTokens(a, c) + FilterTokens(b, c)
  {
    if a == [] {
      assert a + b == b;
    } else {
      assert (a + b)[0] == a[0];
      assert (a + b)[1..] == a[1..] + b;
      FilterTokensAppend(a[1..], b, c);
    }
  }
}
