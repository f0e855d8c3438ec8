/**
 * The record-cleaning body of `get_corpus`: for each parsed JSON record,
 * keep it when it has a `name` and a non-empty `content`, join the `desc`
 * of every content item with "。", scrub brackets, ellipses and newlines,
 * and delete the record's own name from the text.
 *
 * Reading the file and parsing the JSON are not modelled: a record arrives
 * here already parsed. A missing key is `None`.
 */
module Corpus {
  import opened Wrappers
  import opened Text

  /** One element of a record's `content` list; `desc` is `None` when the key is absent. */
  datatype Item = Item(desc: Option<string>)

  /** One parsed line of the corpus file. */
  datatype Record = Record(name: Option<string>, content: Option<seq<Item>>)

  /** `item['desc']` raised `KeyError`: the item `item` of record `record` has no `desc`. */
  datatype CleanError = MissingDesc(record: nat, item: nat)

  /** The two lists `get_corpus` returns, `names` and `contents`. */
  datatype Corpus = Corpus(names: seq<string>, contents: seq<string>)

  /** The ideographic full stop "。". */
  const FullStop: string := "\U{3002}"

  /** `'name' in dict and 'content' in dict and dict['content']`. */
  predicate Kept(r: Record)
  {
    r.name.Some? && r.content.Some? && r.content.value != []
  }

  /**
   * The accumulation `desc = desc + item['desc'] + "。"` over `items`, or the
   * position of the first item without a `desc`.
   */
  function JoinDescs(items: seq<Item>): Result<string, nat>
  {
    if items == [] then Success("")
    else
      match JoinDescs(items[..|items| - 1])
      case Failure(j) => Failure(j)
      case Success(d) =>
        match items[|items| - 1].desc
        case None => Failure(|items| - 1)
        case Some(x) => Success(d + x + FullStop)
  }

  /** The chain of `replace` calls applied to the joined descriptions. */
  function Scrub(desc: string, name: string): string
  {
    var noOpen := Replace(desc, "[", "");
    var noClose := Replace(noOpen, "]", "");
    var noDots := Replace(noClose, "...", FullStop);
    var noNewline := Replace(noDots, "\n", FullStop);
    Replace(noNewline, name, "")
  }

  /**
   * What `get_corpus` returns for `records`, record by record in order; the
   * first missing `desc` aborts the whole call.
   */
  function CleanAll(records: seq<Record>): Result<Corpus, CleanError>
  {
    if records == [] then Success(Corpus([], []))
    else
      var last := |records| - 1;
      match CleanAll(records[..last])
      case Failure(e) => Failure(e)
      case Success(acc) =>
        var r := records[last];
        if !Kept(r) then Success(acc)
        else
          match JoinDescs(r.content.value)
          case Failure(j) => Failure(MissingDesc(last, j))
          case Success(d) => Success(Corpus(acc.names + [r.name.value], acc.contents + [Scrub(d, r.name.value)]))
  }

  /** The records `get_corpus` keeps, in order. */
  function KeptRecords(records: seq<Record>): (kept: seq<Record>)
    ensures |kept| <= |records|
    ensures forall m :: 0 <= m < |kept| ==> Kept(kept[m]) && kept[m] in records
    ensures forall i :: 0 <= i < |records| && Kept(records[i]) ==> records[i] in kept
  {
    if records == [] then []
    else KeptRecords(records[..|records| - 1]) + (if Kept(records[|records| - 1]) then [records[|records| - 1]] else [])
  }

  /**
   * `idx` lists, in increasing order, exactly the positions of `records`
   * that pass the test of `get_corpus`, and `kept` holds those records.
   */
  ghost predicate KeptAt(idx: seq<nat>, records: seq<Record>, kept: seq<Record>)
  {
    && |idx| == |kept|
    && (forall m :: 0 <= m < |idx| ==> idx[m] < |records| && kept[m] == records[idx[m]])
    && (forall m, m' :: 0 <= m < m' < |idx| ==> idx[m] < idx[m'])
    && (forall i :: 0 <= i < |records| && Kept(records[i]) ==> i in idx)
  }

  /** The kept records are every record that passes the test, in input order. */
  lemma {:induction false} KeptRecordsIndices(records: seq<Record>) returns (idx: seq<nat>)
    ensures KeptAt(idx, records, KeptRecords(records))
  {
    if records == [] {
      idx := [];
    } else {
      var last := |records| - 1;
      var prev := KeptRecordsIndices(records[..last]);
      var pk := KeptRecords(records[..last]);
      if Kept(records[last]) {
        idx := prev + [last];
        AppendKeptAt(records, prev, pk);
      } else {
        idx := prev;
        SkipKeptAt(records, prev, pk);
      }
    }
  }

  /** A record that passes the test is appended, with its position. */
  lemma AppendKeptAt(records: seq<Record>, prev: seq<nat>, pk: seq<Record>)
    requires records != [] && Kept(records[|records| - 1])
    requires KeptAt(prev, records[..|records| - 1], pk)
    ensures KeptAt(prev + [|records| - 1], records, pk + [records[|records| - 1]])
  {
    var last := |records| - 1;
    var idx, kept := prev + [last], pk + [records[last]];
    forall m | 0 <= m < |idx| ensures idx[m] < |records| && kept[m] == records[idx[m]] {
      if m < |prev| {
        assert idx[m] == prev[m] && kept[m] == pk[m];
        assert records[..last][prev[m]] == records[prev[m]];
      }
    }
    forall m, m' | 0 <= m < m' < |idx| ensures idx[m] < idx[m'] {
      assert idx[m] == prev[m] && prev[m] < last;
      if m' < |prev| {
        assert idx[m'] == prev[m'];
      }
    }
    forall i | 0 <= i < |records| && Kept(records[i]) ensures i in idx {
      if i < last {
        assert records[..last][i] == records[i];
        assert i in prev;
      }
    }
  }

  /** A record that fails the test leaves the kept records and their positions alone. */
  lemma SkipKeptAt(records: seq<Record>, prev: seq<nat>, pk: seq<Record>)
    requires records != [] && !Kept(records[|records| - 1])
    requires KeptAt(prev, records[..|records| - 1], pk)
    ensures KeptAt(prev, records, pk)
  {
    var last := |records| - 1;
    forall m | 0 <= m < |prev| ensures prev[m] < |records| && pk[m] == records[prev[m]] {
      assert records[..last][prev[m]] == records[prev[m]];
    }
    forall i | 0 <= i < |records| && Kept(records[i]) ensures i in prev {
      assert i < last;
      assert records[..last][i] == records[i];
    }
  }

  /** All items carry a `desc`. */
  predicate AllHaveDesc(items: seq<Item>)
  {
    forall j :: 0 <= j < |items| ==> items[j].desc.Some?
  }

  lemma {:induction false} JoinDescsFailure(items: seq<Item>)
    ensures JoinDescs(items).Success? <==> AllHaveDesc(items)
    ensures JoinDescs(items).Failure? ==>
              JoinDescs(items).error < |items| && items[JoinDescs(items).error].desc.None? &&
              AllHaveDesc(items[..JoinDescs(items).error])
  {
    if items != [] {
      var init := items[..|items| - 1];
      JoinDescsFailure(init);
      assert forall j :: 0 <= j < |init| ==> init[j] == items[j];
      if JoinDescs(init).Failure? {
        var e := JoinDescs(init).error;
        assert items[..e] == init[..e];
      } else {
        assert items[..|items| - 1] == init;
      }
    }
  }

  /** Once a prefix of the items fails, the whole list fails the same way. */
  lemma {:induction false} JoinDescsFailurePersists(items: seq<Item>, k: nat)
    requires k <= |items| && JoinDescs(items[..k]).Failure?
    ensures JoinDescs(items) == JoinDescs(items[..k])
    decreases |items| - k
  {
    if k < |items| {
      assert items[..k + 1][..k] == items[..k];
      JoinDescsFailurePersists(items, k + 1);
    } else {
      assert items[..k] == items;
    }
  }

  /** Once a prefix of the records fails, the whole corpus fails the same way. */
  lemma {:induction false} CleanAllFailurePersists(records: seq<Record>, k: nat)
    requires k <= |records| && CleanAll(records[..k]).Failure?
    ensures CleanAll(records) == CleanAll(records[..k])
    decreases |records| - k
  {
    if k < |records| {
      assert records[..k + 1][..k] == records[..k];
      CleanAllFailurePersists(records, k + 1);
    } else {
      assert records[..k] == records;
    }
  }

  /**
   * The loop of `get_corpus` over the parsed lines, with the inner loop
   * that accumulates `desc`; `names` and `contents` grow together.
   */
  method GetCorpus(records: seq<Record>) returns (result: Result<Corpus, CleanError>)
    ensures result == CleanAll(records)
  {
    var names: seq<string> := [];
    var contents: seq<string> := [];
    var i := 0;
    while i < |records|
      invariant i <= |records|
      invariant CleanAll(records[..i]) == Success(Corpus(names, contents))
    {
      var r := records[i];
      assert records[..i + 1][..i] == records[..i];
      if r.name.Some? && r.content.Some? && r.content.value != [] {
        var name := r.name.value;
        var items := r.content.value;
        var desc := "";
        names := names + [name];
        var j := 0;
        while j < |items|
          invariant j <= |items|
          invariant JoinDescs(items[..j]) == Success(desc)
        {
          assert items[..j + 1][..j] == items[..j];
          match items[j].desc
          case None =>
            JoinDescsFailurePersists(items, j + 1);
            CleanAllFailurePersists(records, i + 1);
            return Failure(MissingDesc(i, j));
          case Some(x) =>
            desc := desc + x + FullStop;
          j := j + 1;
        }
        assert items[..j] == items;
        desc := Replace(Replace(Replace(Replace(desc, "[", ""), "]", ""), "...", FullStop), "\n", FullStop);
        desc := Replace(desc, name, "");
        contents := contents + [desc];
      }
      i := i + 1;
    }
    assert records[..i] == records;
    return Success(Corpus(names, contents));
  }

  /** A scrubbed description has no "[", "]" or "\n". */
  lemma ScrubClean(desc: string, name: string)
    ensures '[' !in Scrub(desc, name) && ']' !in Scrub(desc, name) && '\n' !in Scrub(desc, name)
  {
    var noOpen := Replace(desc, "[", "");
    var noClose := Replace(noOpen, "]", "");
    var noDots := Replace(noClose, "...", FullStop);
    var noNewline := Replace(noDots, "\n", FullStop);
    ReplaceRemovesChar(desc, '[', "");
    ReplaceRemovesChar(noOpen, ']', "");
    ReplaceIntroducesNothing(noOpen, "]", "", '[');
    ReplaceIntroducesNothing(noClose, "...", FullStop, '[');
    ReplaceIntroducesNothing(noClose, "...", FullStop, ']');
    ReplaceRemovesChar(noDots, '\n', FullStop);
    ReplaceIntroducesNothing(noDots, "\n", FullStop, '[');
    ReplaceIntroducesNothing(noDots, "\n", FullStop, ']');
    ReplaceIntroducesNothing(noNewline, name, "", '[');
    ReplaceIntroducesNothing(noNewline, name, "", ']');
    ReplaceIntroducesNothing(noNewline, name, "", '\n');
  }

  /** An empty record name deletes nothing: `desc.replace("", "")` is `desc`. */
  lemma ScrubEmptyName(desc: string)
    ensures Scrub(desc, "") == Replace(Replace(Replace(Replace(desc, "[", ""), "]", ""), "...", FullStop), "\n", FullStop)
  {
    ReplaceEmptyByEmpty(Replace(Replace(Replace(Replace(desc, "[", ""), "]", ""), "...", FullStop), "\n", FullStop));
  }

  /**
   * On success, `names` and `contents` have one entry per kept record, in
   * order: the record's name, and its joined descriptions scrubbed of that
   * name, which contain no "[", "]" or "\n".
   */
  lemma {:induction false} CleanAllShape(records: seq<Record>)
    requires CleanAll(records).Success?
    ensures var c := CleanAll(records).value;
      && |c.names| == |c.contents| == |KeptRecords(records)|
      && (forall m :: 0 <= m < |c.names| ==> c.names[m] == KeptRecords(records)[m].name.value)
      && (forall m :: 0 <= m < |c.contents| ==>
            var items := KeptRecords(records)[m].content.value;
            JoinDescs(items).Success? && c.contents[m] == Scrub(JoinDescs(items).value, c.names[m]))
      && (forall m :: 0 <= m < |c.contents| ==>
            '[' !in c.contents[m] && ']' !in c.contents[m] && '\n' !in c.contents[m])
  {
    if records != [] {
      var last := |records| - 1;
      CleanAllShape(records[..last]);
      var r := records[last];
      if Kept(r) {
        ScrubClean(JoinDescs(r.content.value).value, r.name.value);
      }
    }
  }

  /** `get_corpus` succeeds exactly when every kept record's items all carry a `desc`. */
  lemma {:induction false} CleanAllSucceeds(records: seq<Record>)
    ensures CleanAll(records).Success? <==>
              forall i :: 0 <= i < |records| && Kept(records[i]) ==> AllHaveDesc(records[i].content.value)
  {
    if records != [] {
      var last := |records| - 1;
      var init := records[..last];
      CleanAllSucceeds(init);
      assert forall i :: 0 <= i < |init| ==> init[i] == records[i];
      if Kept(records[last]) {
        JoinDescsFailure(records[last].content.value);
      }
    }
  }
}
