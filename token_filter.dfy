/**
 * The token acceptance filter (`filter` in gensim_nlpir_versionV3.py).
 *
 * Both regular expressions are written out as predicates over code points.
 * Python's `re.match` anchors at the start only; `$` matches at the end of
 * the string and also just before a single final "\n", and that second case
 * is modelled (`DollarAt`).
 */
module TokenFilter {
  import opened Text

  /** A segmenter output pair: the surface form and its part-of-speech tag. */
  datatype Token = Token(surface: string, tag: string)

  /** `[a-zA-Z0-9一-龥]`. */
  predicate UsefulChar(c: char)
  {
    IsAsciiAlnum(c) || IsCjk(c)
  }

  /** `$` matches at position `p` of `s`. */
  predicate DollarAt(s: string, p: nat)
  {
    p == |s| || (p + 1 == |s| && s[p] == '\n')
  }

  /** `re.match("^[a-zA-Z0-9一-龥]+$", s)` succeeds. */
  predicate UsefulWordMatch(s: string)
  {
    exists p :: 1 <= p <= |s| && DollarAt(s, p) && AllUsefulBefore(s, p)
  }

  predicate AllUsefulBefore(s: string, p: nat)
    requires p <= |s|
  {
    forall i :: 0 <= i < p ==> UsefulChar(s[i])
  }

  /** The alternatives 省|自治区|市|区|县|镇|村|街. */
  const DistrictSuffixes: seq<string> := [
    "\U{7701}",                   // 省  province
    "\U{81EA}\U{6CBB}\U{533A}",   // 自治区  autonomous region
    "\U{5E02}",                   // 市  city
    "\U{533A}",                   // 区  district
    "\U{53BF}",                   // 县  county
    "\U{9547}",                   // 镇  town
    "\U{6751}",                   // 村  village
    "\U{8857}"                    // 街  street
  ]

  /**
   * The match of the district pattern that takes `k` CJK characters and then
   * the suffix `sfx`, followed by `$`.
   */
  predicate DistrictAt(s: string, k: nat, sfx: string)
  {
    && 1 <= k <= 7
    && k + |sfx| <= |s|
    && AllCjk(s[..k])
    && s[k..k + |sfx|] == sfx
    && DollarAt(s, k + |sfx|)
  }

  /** `re.match("[一-龥]{1,7}?(?:省|自治区|市|区|县|镇|村|街)$", s)` succeeds. */
  predicate DistrictMatch(s: string)
  {
    exists k, j :: 1 <= k <= 7 && 0 <= j < |DistrictSuffixes| && DistrictAt(s, k, DistrictSuffixes[j])
  }

  /**
   * `filter(word)`: the stopword list and the stop-category set are
   * parameters here instead of module globals.
   */
  predicate Accept(t: Token, stopWords: seq<string>, stopTypes: set<string>)
  {
    && 1 < |t.surface| < 10
    && UsefulWordMatch(t.surface)
    && !DistrictMatch(t.surface)
    && t.surface !in stopWords
    && t.tag !in stopTypes
  }

  /**
   * An accepted surface has 2 to 9 characters, each of them a letter, a digit
   * or a CJK ideograph, except that the last one may be the "\n" that `$`
   * lets through.
   */
  lemma AcceptedShape(t: Token, stopWords: seq<string>, stopTypes: set<string>)
    requires Accept(t, stopWords, stopTypes)
    ensures 2 <= |t.surface| <= 9
    ensures forall i :: 0 <= i < |t.surface| ==>
              UsefulChar(t.surface[i]) || (i == |t.surface| - 1 && t.surface[i] == '\n')
  {
    var p :| 1 <= p <= |t.surface| && DollarAt(t.surface, p) && AllUsefulBefore(t.surface, p);
    assert p == |t.surface| || p == |t.surface| - 1;
  }

  /** Without a newline every character of an accepted surface is in the class. */
  lemma AcceptedCharacters(t: Token, stopWords: seq<string>, stopTypes: set<string>)
    requires Accept(t, stopWords, stopTypes)
    requires '\n' !in t.surface
    ensures forall i :: 0 <= i < |t.surface| ==> UsefulChar(t.surface[i])
  {
    AcceptedShape(t, stopWords, stopTypes);
  }

  /**
   * Conversely, a surface of 2 to 9 letters, digits and CJK ideographs that
   * is not a district name and not on either stop list is accepted.
   */
  lemma AcceptedWhenClean(t: Token, stopWords: seq<string>, stopTypes: set<string>)
    requires 2 <= |t.surface| <= 9
    requires forall i :: 0 <= i < |t.surface| ==> UsefulChar(t.surface[i])
    requires !DistrictMatch(t.surface)
    requires t.surface !in stopWords && t.tag !in stopTypes
    ensures Accept(t, stopWords, stopTypes)
  {
    assert DollarAt(t.surface, |t.surface|) && AllUsefulBefore(t.surface, |t.surface|);
  }

  /** A surface of length 1 or of length 10 or more is always rejected. */
  lemma LengthRejected(t: Token, stopWords: seq<string>, stopTypes: set<string>)
    requires |t.surface| <= 1 || |t.surface| >= 10
    ensures !Accept(t, stopWords, stopTypes)
  {
  }

  /** 1 to 7 CJK characters followed by a district suffix are always rejected. */
  lemma DistrictRejected(p: string, j: nat, tag: string, stopWords: seq<string>, stopTypes: set<string>)
    requires 1 <= |p| <= 7 && AllCjk(p)
    requires j < |DistrictSuffixes|
    ensures DistrictMatch(p + DistrictSuffixes[j])
    ensures !Accept(Token(p + DistrictSuffixes[j], tag), stopWords, stopTypes)
  {
    var s := p + DistrictSuffixes[j];
    assert s[..|p|] == p;
    assert s[|p|..|p| + |DistrictSuffixes[j]|] == DistrictSuffixes[j];
    assert DistrictAt(s, |p|, DistrictSuffixes[j]);
  }

  /**
   * Conversely, a newline-free surface that the district pattern matches is
   * 1 to 7 CJK characters followed by one of the suffixes, and nothing more.
   */
  lemma DistrictShape(s: string)
    requires DistrictMatch(s) && '\n' !in s
    ensures exists k, j :: 1 <= k <= 7 && k <= |s| && 0 <= j < |DistrictSuffixes| &&
              AllCjk(s[..k]) && s == s[..k] + DistrictSuffixes[j]
  {
    var k, j :| 1 <= k <= 7 && 0 <= j < |DistrictSuffixes| && DistrictAt(s, k, DistrictSuffixes[j]);
    var sfx := DistrictSuffixes[j];
    assert k + |sfx| == |s|;
    assert s == s[..k] + s[k..k + |sfx|];
  }

  /** The pattern also rejects ordinary words such as 城市 ("city"). */
  lemma CityRejected(tag: string, stopWords: seq<string>, stopTypes: set<string>)
    ensures !Accept(Token("\U{57CE}\U{5E02}", tag), stopWords, stopTypes)
  {
    assert "\U{57CE}\U{5E02}" == "\U{57CE}" + DistrictSuffixes[2];
    DistrictRejected("\U{57CE}", 2, tag, stopWords, stopTypes);
  }

  /** A stopword surface or a stop-category tag is rejected whatever else holds. */
  lemma StopListsReject(t: Token, stopWords: seq<string>, stopTypes: set<string>)
    requires t.surface in stopWords || t.tag in stopTypes
    ensures !Accept(t, stopWords, stopTypes)
  {
  }

  /** Shrinking the stop lists never turns an accepted token into a rejected one. */
  lemma AcceptAntitone(t: Token, stopWords: seq<string>, stopTypes: set<string>,
                       fewerWords: seq<string>, fewerTypes: set<string>)
    requires forall w :: w in fewerWords ==> w in stopWords
    requires fewerTypes <= stopTypes
    requires Accept(t, stopWords, stopTypes)
    ensures Accept(t, fewerWords, fewerTypes)
  {
  }
}
