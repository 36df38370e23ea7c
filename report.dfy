/** The text report the driver writes after parsing: for every event of the
    merged results, a rule and the event id, then for every sentence its
    word information, parse tree, dependencies and coreference details.

    A result is a nested dict in the program; here each level is a datatype
    whose optional fields are the keys that may be missing. A present field
    holds its `str.format` rendering, since the report only ever formats it.
    A dict that is iterated is an item list in iteration order; one that is
    only looked up is a `map`. */
module Report {
  import opened Wrappers

  /** `sent_inf['sents'][sent]`: the keys a sentence entry may lack. */
  datatype SentenceEntry = SentenceEntry(
    wordInfo: Option<string>,
    parseTree: Option<string>,
    dependencies: Option<string>,
    corefTree: Option<string>)

  /** `sent_inf['coref_info'][sent]` */
  datatype CorefEntry = CorefEntry(corefs: Option<string>)

  /** `results[event]['sent_info']`: the sentences, in iteration order, and
      the coreference information looked up by sentence key. */
  datatype SentInfo = SentInfo(
    sents: Option<seq<(string, SentenceEntry)>>,
    corefInfo: Option<map<string, CorefEntry>>)

  /** `results[event]` */
  datatype EventResult = EventResult(sentInfo: Option<SentInfo>)

  /** The lookups outside any `try`: a miss raises and ends the run, and the
      report file is never written. */
  datatype ReportError =
    | MissingSentInfo(event: string)
    | MissingSents(event: string)

  const EventRule: string := "\n=======================\n\n"
  const SentenceRule: string := "----------------------\n\n"
  const CorefInfoLine: string := "Coref info:\n\n"

  /** The lines that open an event's section. */
  function EventHeader(event: string): string
  {
    EventRule + "event id: " + event + "\n\n"
  }

  /** The line that opens a sentence's block. */
  function SentenceHeader(sent: string): string
  {
    "Sentence " + sent + ":\n"
  }

  /** One labelled field: the label, a newline and a space, the value, a
      blank line. */
  function Field(name: string, value: string): string
  {
    name + ":\n " + value + "\n\n"
  }

  /** The inner `try`: the corefs line when `coref_info`, its entry for the
      sentence and that entry's `corefs` are all there, followed by the
      coref-tree line when the sentence also has a `coref_tree`. Any miss
      drops the rest of the inner block and nothing else. */
  function CorefLines(sent: string, entry: SentenceEntry, corefInfo: Option<map<string, CorefEntry>>): string
  {
    if corefInfo.None? || sent !in corefInfo.value || corefInfo.value[sent].corefs.None? then ""
    else
      Field("Corefs", corefInfo.value[sent].corefs.value)
      + (if entry.corefTree.None? then "" else Field("Coref tree", entry.corefTree.value))
  }

  /** The outer `try` for one sentence. Each line is appended as soon as it
      is formatted, so a missing `word_info`, `parse_tree` or `dependencies`
      leaves the lines before it in place and skips the rest, the closing
      rule included. */
  function SentenceBlock(sent: string, entry: SentenceEntry, corefInfo: Option<map<string, CorefEntry>>): string
  {
    var head := SentenceHeader(sent);
    if entry.wordInfo.None? then head
    else
      var w := head + Field("Word info", entry.wordInfo.value);
      if entry.parseTree.None? then w
      else
        var p := w + Field("Parse tree", entry.parseTree.value);
        if entry.dependencies.None? then p
        else
          p + Field("Word dependencies", entry.dependencies.value) + CorefInfoLine
          + CorefLines(sent, entry, corefInfo) + SentenceRule
  }

  /** The blocks of a list of sentences, in order. */
  function Sentences(sents: seq<(string, SentenceEntry)>, corefInfo: Option<map<string, CorefEntry>>): string
  {
    if sents == [] then ""
    else
      var last := sents[|sents| - 1];
      Sentences(sents[..|sents| - 1], corefInfo) + SentenceBlock(last.0, last.1, corefInfo)
  }

  /** One event's section, or the error its unguarded lookups raise. */
  function EventSection(event: string, res: EventResult): Result<string, ReportError>
  {
    if res.sentInfo.None? then Err(MissingSentInfo(event))
    else if res.sentInfo.value.sents.None? then Err(MissingSents(event))
    else
      var info := res.sentInfo.value;
      Ok(EventHeader(event) + Sentences(info.sents.value, info.corefInfo))
  }

  /** The whole report: the sections in iteration order, or the first error. */
  function Report(results: seq<(string, EventResult)>): Result<string, ReportError>
  {
    if results == [] then Ok("")
    else
      var last := results[|results| - 1];
      var prev := Report(results[..|results| - 1]);
      if prev.Err? then prev
      else
        var section := EventSection(last.0, last.1);
        if section.Err? then section
        else Ok(prev.value + section.value)
  }

  /** The report loop, appending to `event_output` one piece at a time. */
  method FormatReport(results: seq<(string, EventResult)>) returns (r: Result<string, ReportError>)
    ensures r == Report(results)
  {
    var output := "";
    var i := 0;
    while i < |results|
      invariant 0 <= i <= |results|
      invariant Report(results[..i]) == Ok(output)
    {
      var event := results[i].0;
      var res := results[i].1;
      var start := output;
      output := output + EventRule;
      output := output + "event id: " + event + "\n\n";
      assert output == start + EventHeader(event);
      if res.sentInfo.None? || res.sentInfo.value.sents.None? {
        ErrorEndsReport(results, i);
        if res.sentInfo.None? {
          return Err(MissingSentInfo(event));
        }
        return Err(MissingSents(event));
      }
      var sentInf := res.sentInfo.value;
      output := AppendSentences(output, sentInf.sents.value, sentInf.corefInfo);
      Assoc(start, EventHeader(event), Sentences(sentInf.sents.value, sentInf.corefInfo));
      ReportStep(results, i, start);
      i := i + 1;
    }
    assert results[..i] == results;
    r := Ok(output);
  }

  /** The inner loop over one event's sentences. */
  method AppendSentences(output: string, sents: seq<(string, SentenceEntry)>,
                         corefInfo: Option<map<string, CorefEntry>>) returns (out: string)
    ensures out == output + Sentences(sents, corefInfo)
  {
    out := output;
    var j := 0;
    while j < |sents|
      invariant 0 <= j <= |sents|
      invariant out == output + Sentences(sents[..j], corefInfo)
    {
      assert sents[..j + 1][..j] == sents[..j];
      Assoc(output, Sentences(sents[..j], corefInfo), SentenceBlock(sents[j].0, sents[j].1, corefInfo));
      out := AppendSentence(out, sents[j].0, sents[j].1, corefInfo);
      j := j + 1;
    }
    assert sents[..j] == sents;
  }

  lemma Assoc(a: string, b: string, c: string)
    ensures (a + b) + c == a + (b + c)
  {
  }

  /** The body of the outer `try` for one sentence, appending each line as
      it is formatted and stopping at the first missing key. */
  method AppendSentence(output: string, sent: string, entry: SentenceEntry,
                        corefInfo: Option<map<string, CorefEntry>>) returns (out: string)
    ensures out == output + SentenceBlock(sent, entry, corefInfo)
  {
    ghost var block := SentenceHeader(sent);
    out := output + SentenceHeader(sent);
    if entry.wordInfo.None? {
      return;
    }
    Assoc(output, block, Field("Word info", entry.wordInfo.value));
    block := block + Field("Word info", entry.wordInfo.value);
    out := out + Field("Word info", entry.wordInfo.value);
    if entry.parseTree.None? {
      return;
    }
    Assoc(output, block, Field("Parse tree", entry.parseTree.value));
    block := block + Field("Parse tree", entry.parseTree.value);
    out := out + Field("Parse tree", entry.parseTree.value);
    if entry.dependencies.None? {
      return;
    }
    Assoc(output, block, Field("Word dependencies", entry.dependencies.value));
    block := block + Field("Word dependencies", entry.dependencies.value);
    out := out + Field("Word dependencies", entry.dependencies.value);
    Assoc(output, block, CorefInfoLine);
    block := block + CorefInfoLine;
    out := out + CorefInfoLine;
    var lines := AppendCorefs(sent, entry, corefInfo);
    Assoc(output, block, lines);
    block := block + lines;
    out := out + lines;
    Assoc(output, block, SentenceRule);
    block := block + SentenceRule;
    out := out + SentenceRule;
    assert block == SentenceBlock(sent, entry, corefInfo);
  }

  /** The inner `try`: the lines it manages to append before a missing key. */
  method AppendCorefs(sent: string, entry: SentenceEntry,
                      corefInfo: Option<map<string, CorefEntry>>) returns (lines: string)
    ensures lines == CorefLines(sent, entry, corefInfo)
  {
    lines := "";
    if corefInfo.None? || sent !in corefInfo.value || corefInfo.value[sent].corefs.None? {
      return;
    }
    lines := lines + Field("Corefs", corefInfo.value[sent].corefs.value);
    if entry.corefTree.None? {
      return;
    }
    lines := lines + Field("Coref tree", entry.corefTree.value);
  }

  /** A section that succeeds is appended to the report so far. */
  lemma ReportStep(results: seq<(string, EventResult)>, i: nat, output: string)
    requires i < |results| && Report(results[..i]) == Ok(output)
    requires EventSection(results[i].0, results[i].1).Ok?
    ensures Report(results[..i + 1]) == Ok(output + EventSection(results[i].0, results[i].1).value)
  {
    var a := results[..i + 1];
    assert a[..|a| - 1] == results[..i];
    assert a[|a| - 1] == results[i];
  }

  /** A section that fails fails the whole report. */
  lemma ErrorEndsReport(results: seq<(string, EventResult)>, i: nat)
    requires i < |results| && Report(results[..i]).Ok?
    requires EventSection(results[i].0, results[i].1).Err?
    ensures Report(results) == EventSection(results[i].0, results[i].1)
  {
    var a := results[..i + 1];
    PrefixFails(results, i);
    ErrorSticks(a, results[i + 1..]);
    assert results == a + results[i + 1..];
  }

  lemma PrefixFails(results: seq<(string, EventResult)>, i: nat)
    requires i < |results| && Report(results[..i]).Ok?
    requires EventSection(results[i].0, results[i].1).Err?
    ensures Report(results[..i + 1]) == EventSection(results[i].0, results[i].1)
  {
    var a := results[..i + 1];
    assert a[..|a| - 1] == results[..i];
    assert a[|a| - 1] == results[i];
  }

  lemma ErrorSticks(a: seq<(string, EventResult)>, b: seq<(string, EventResult)>)
    requires Report(a).Err?
    ensures Report(a + b) == Report(a)
  {
    ReportAppend(a, b);
  }

  // ---------------------------------------------------------------------
  // Properties
  // ---------------------------------------------------------------------

  /** Empty results give an empty report. */
  lemma EmptyReport()
    ensures Report([]) == Ok("")
  {
  }

  /** Every event has its `sent_info` and its `sents`. */
  ghost predicate AllSectionsOk(results: seq<(string, EventResult)>)
  {
    forall i :: 0 <= i < |results| ==>
      results[i].1.sentInfo.Some? && results[i].1.sentInfo.value.sents.Some?
  }

  /** The report is produced exactly when no event lacks `sent_info` or
      `sents`. */
  lemma {:induction false} ReportOkIff(results: seq<(string, EventResult)>)
    ensures Report(results).Ok? <==> AllSectionsOk(results)
  {
    if results != [] {
      var init := results[..|results| - 1];
      ReportOkIff(init);
      if AllSectionsOk(results) {
        assert forall i :: 0 <= i < |init| ==> init[i] == results[i];
      }
    }
  }

  /** A failed report names the first event whose `sent_info` or `sents` is
      missing, and says which of the two. */
  lemma {:induction false} ReportErrFirst(results: seq<(string, EventResult)>)
    requires Report(results).Err?
    ensures exists i :: 0 <= i < |results| && AllSectionsOk(results[..i])
              && Report(results) == EventSection(results[i].0, results[i].1)
              && Report(results).error.event == results[i].0
  {
    var init := results[..|results| - 1];
    var last := |results| - 1;
    if Report(init).Err? {
      ReportErrFirst(init);
      var i :| 0 <= i < |init| && AllSectionsOk(init[..i])
               && Report(init) == EventSection(init[i].0, init[i].1)
               && Report(init).error.event == init[i].0;
      assert init[..i] == results[..i];
      assert init[i] == results[i];
    } else {
      ReportOkIff(init);
      assert init == results[..last];
      assert AllSectionsOk(results[..last]);
      assert Report(results) == EventSection(results[last].0, results[last].1);
    }
  }

  /** Events are reported independently and in order: the report of two
      runs of events is the first report followed by the second. */
  lemma {:induction false} ReportAppend(a: seq<(string, EventResult)>, b: seq<(string, EventResult)>)
    ensures Report(a + b) ==
            if Report(a).Err? then Report(a)
            else if Report(b).Err? then Report(b)
            else Ok(Report(a).value + Report(b).value)
    decreases |b|
  {
    if b == [] {
      assert a + b == a;
      assert Report(b) == Ok("");
      if Report(a).Ok? {
        assert Report(a).value + "" == Report(a).value;
      }
    } else {
      var b' := b[..|b| - 1];
      var last := b[|b| - 1];
      assert (a + b)[..|a + b| - 1] == a + b';
      assert (a + b)[|a + b| - 1] == last;
      ReportAppend(a, b');
      var section := EventSection(last.0, last.1);
      if Report(a).Ok? && Report(b').Ok? && section.Ok? {
        Assoc(Report(a).value, Report(b').value, section.value);
      }
    }
  }

  /** A section opens with the rule and the event id, whatever follows. */
  lemma SectionHeader(event: string, res: EventResult)
    requires EventSection(event, res).Ok?
    ensures |EventHeader(event)| <= |EventSection(event, res).value|
    ensures EventSection(event, res).value[..|EventHeader(event)|] == EventHeader(event)
    ensures EventSection(event, res).value[..|EventRule|] == EventRule
  {
    var s := EventSection(event, res).value;
    var h := EventHeader(event);
    assert s[..|h|] == h;
    assert h[..|EventRule|] == EventRule;
  }

  /** A sentence block always opens with the sentence's header line. */
  lemma BlockHeader(sent: string, entry: SentenceEntry, corefInfo: Option<map<string, CorefEntry>>)
    ensures var b := SentenceBlock(sent, entry, corefInfo);
            |SentenceHeader(sent)| <= |b| && b[..|SentenceHeader(sent)|] == SentenceHeader(sent)
  {
    var b := SentenceBlock(sent, entry, corefInfo);
    var h := SentenceHeader(sent);
    assert b == h + b[|h|..];
  }

  /** With word info, parse tree and dependencies present, the block closes
      with the sentence rule however the coreference lookups go. */
  lemma BlockClosed(sent: string, entry: SentenceEntry, corefInfo: Option<map<string, CorefEntry>>)
    requires entry.wordInfo.Some? && entry.parseTree.Some? && entry.dependencies.Some?
    ensures var b := SentenceBlock(sent, entry, corefInfo);
            |SentenceRule| <= |b| && b[|b| - |SentenceRule|..] == SentenceRule
  {
  }

  /** A missing coreference detail removes only the coreference lines: the
      block is then the one a sentence with no coreference information
      gets. */
  lemma CorefMissNoCorefLines(sent: string, entry: SentenceEntry, corefInfo: Option<map<string, CorefEntry>>)
    requires corefInfo.None? || sent !in corefInfo.value || corefInfo.value[sent].corefs.None?
    ensures SentenceBlock(sent, entry, corefInfo) == SentenceBlock(sent, entry, None)
    ensures SentenceBlock(sent, entry, corefInfo)
            == SentenceBlock(sent, entry.(corefTree := None), Some(map[]))
  {
  }

  /** A missing `coref_tree` after a present `corefs` drops only the
      coref-tree line: the block with the tree is the block without it, with
      the tree line put back just before the closing rule. */
  lemma CorefTreeMissKeepsCorefs(sent: string, entry: SentenceEntry, t: string,
                                 corefInfo: Option<map<string, CorefEntry>>)
    requires entry.wordInfo.Some? && entry.parseTree.Some? && entry.dependencies.Some?
    requires corefInfo.Some? && sent in corefInfo.value && corefInfo.value[sent].corefs.Some?
    ensures var without := SentenceBlock(sent, entry.(corefTree := None), corefInfo);
            var with := SentenceBlock(sent, entry.(corefTree := Some(t)), corefInfo);
            |SentenceRule| <= |without|
            && with == without[..|without| - |SentenceRule|] + Field("Coref tree", t) + SentenceRule
  {
    var e0, e1 := entry.(corefTree := None), entry.(corefTree := Some(t));
    var base := SentenceHeader(sent) + Field("Word info", entry.wordInfo.value)
                + Field("Parse tree", entry.parseTree.value)
                + Field("Word dependencies", entry.dependencies.value) + CorefInfoLine;
    var corefs := Field("Corefs", corefInfo.value[sent].corefs.value);
    var tree := Field("Coref tree", t);
    assert CorefLines(sent, e0, corefInfo) == corefs + "";
    assert corefs + "" == corefs;
    assert CorefLines(sent, e1, corefInfo) == corefs + tree;
    var without := SentenceBlock(sent, e0, corefInfo);
    assert without == (base + corefs) + SentenceRule;
    assert without[..|without| - |SentenceRule|] == base + corefs;
    Assoc(base, corefs, tree);
  }

  /** A sentence with every key present: the seven labelled parts in their
      order, closed by the rule. */
  lemma CompleteBlock(sent: string, w: string, p: string, d: string, c: string, t: string)
    ensures SentenceBlock(sent, SentenceEntry(Some(w), Some(p), Some(d), Some(t)),
                          Some(map[sent := CorefEntry(Some(c))]))
            == SentenceHeader(sent) + Field("Word info", w) + Field("Parse tree", p)
               + Field("Word dependencies", d) + CorefInfoLine
               + Field("Corefs", c) + Field("Coref tree", t) + SentenceRule
  {
    var stem := SentenceHeader(sent) + Field("Word info", w) + Field("Parse tree", p)
                + Field("Word dependencies", d) + CorefInfoLine;
    Assoc(stem, Field("Corefs", c), Field("Coref tree", t));
  }

  /** `entry` agrees with `full`, which has all three outer fields, wherever
      `entry` has them, and has the same coref tree. */
  ghost predicate PartOf(entry: SentenceEntry, full: SentenceEntry)
  {
    full.wordInfo.Some? && full.parseTree.Some? && full.dependencies.Some?
    && (entry.wordInfo.Some? ==> entry.wordInfo == full.wordInfo)
    && (entry.parseTree.Some? ==> entry.parseTree == full.parseTree)
    && (entry.dependencies.Some? ==> entry.dependencies == full.dependencies)
    && entry.corefTree == full.corefTree
  }

  /** What is appended before a `KeyError` stays: the block of a sentence
      that lacks one of its outer fields is a prefix of the block it would
      have had with all of them. */
  lemma PartialBlockIsPrefix(sent: string, entry: SentenceEntry, full: SentenceEntry,
                             corefInfo: Option<map<string, CorefEntry>>)
    requires PartOf(entry, full)
    ensures SentenceBlock(sent, entry, corefInfo) <= SentenceBlock(sent, full, corefInfo)
    ensures !(entry.wordInfo.Some? && entry.parseTree.Some? && entry.dependencies.Some?) ==>
              |SentenceBlock(sent, entry, corefInfo)| + |CorefInfoLine + SentenceRule|
              <= |SentenceBlock(sent, full, corefInfo)|
  {
    var b := SentenceBlock(sent, entry, corefInfo);
    var f := SentenceBlock(sent, full, corefInfo);
    assert f == b + f[|b|..];
  }

  /** The section of an event is its header followed by the blocks of its
      sentences in iteration order, one appended after another. */
  lemma {:induction false} SentencesAppend(a: seq<(string, SentenceEntry)>, b: seq<(string, SentenceEntry)>,
                                           corefInfo: Option<map<string, CorefEntry>>)
    ensures Sentences(a + b, corefInfo) == Sentences(a, corefInfo) + Sentences(b, corefInfo)
    decreases |b|
  {
    if b == [] {
      assert a + b == a;
    } else {
      var b' := b[..|b| - 1];
      var last := b[|b| - 1];
      assert (a + b)[..|a + b| - 1] == a + b';
      assert (a + b)[|a + b| - 1] == last;
      SentencesAppend(a, b', corefInfo);
      var block := SentenceBlock(last.0, last.1, corefInfo);
      assert Sentences(a + b, corefInfo) == Sentences(a + b', corefInfo) + block;
      assert Sentences(b, corefInfo) == Sentences(b', corefInfo) + block;
      Assoc(Sentences(a, corefInfo), Sentences(b', corefInfo), block);
    }
  }
}
