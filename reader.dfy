/** The story-file reader (`read_data`): the text of a TABARI-format file
    becomes a dict from story id to the story's day, id and text.

    A file is a list of records separated by a blank line. The first line of
    a record is its meta line, whose first two whitespace-separated tokens
    are the date and the id; the rest of the record, with every line feed
    deleted, is the story. Reading the file itself is I/O and is not part of
    this model: the reader takes the file's contents as a string. */
module Reader {
  import opened Wrappers
  import opened PyStrings
  import Dicts

  /** The date the date parser recovers from the date token (a time of day
      it may also carry is not modelled). */
  datatype Date = Date(year: int, month: int, day: int)

  /** The per-story dict `{'day': ..., 'id': ..., 'story': ...}`. */
  datatype StoryInfo = StoryInfo(day: Date, id: string, story: string)

  /** The two exceptions a record can raise; either one ends the whole read. */
  datatype ReadError =
    | TooFewMetaTokens(meta: string)  // unpacking the meta line's tokens into date and id fails
    | UnparsableDate(text: string)    // the date parser rejects the date token

  /** Records are separated by an empty line. */
  const RecordSeparator: string := "\n\n"

  /** `sentence[:sentence.find('\n')]`. With no line feed, `find` gives -1
      and the slice drops the record's last character. */
  function MetaString(rec: string): string
  {
    Prefix(rec, Find(rec, '\n'))
  }

  /** `sentence[sentence.find('\n'):].replace('\n', '')`. With no line feed
      this is the record's last character. */
  function StoryString(rec: string): (story: string)
    ensures '\n' !in story
  {
    Remove(Suffix(rec, Find(rec, '\n')), '\n')
  }

  /** One record becomes one story, or the exception it raises: fewer than
      two meta tokens fail the unpacking before the date is looked at. */
  function ParseRecord(rec: string, parseDate: string -> Option<Date>): (r: Result<StoryInfo, ReadError>)
    ensures r.Ok? <==> |Tokens(MetaString(rec))| >= 2 && parseDate(Tokens(MetaString(rec))[0]).Some?
    ensures r.Ok? ==> IsWord(r.value.id) && '\n' !in r.value.story
  {
    var tokens := Tokens(MetaString(rec));
    if |tokens| < 2 then Err(TooFewMetaTokens(MetaString(rec)))
    else match parseDate(tokens[0])
      case None => Err(UnparsableDate(tokens[0]))
      case Some(day) => Ok(StoryInfo(day, tokens[1], StoryString(rec)))
  }

  /** A record laid out as a meta line, a line feed and a body: the meta
      line's first token is the date, its second the id, any further tokens
      are ignored, and the story is the body with its line feeds deleted and
      nothing put in their place. */
  lemma RecordLayout(meta: string, body: string, parseDate: string -> Option<Date>)
    requires '\n' !in meta
    ensures MetaString(meta + "\n" + body) == meta
    ensures StoryString(meta + "\n" + body) == Remove(body, '\n')
    ensures var ts := Tokens(meta);
            ParseRecord(meta + "\n" + body, parseDate) ==
              if |ts| < 2 then Err(TooFewMetaTokens(meta))
              else if parseDate(ts[0]).None? then Err(UnparsableDate(ts[0]))
              else Ok(StoryInfo(parseDate(ts[0]).value, ts[1], Remove(body, '\n')))
  {
    var rec := meta + "\n" + body;
    var f := Find(rec, '\n');
    assert rec[|meta|] == '\n';
    assert forall k :: 0 <= k < |meta| ==> rec[k] == meta[k];
    assert f == |meta|;
    assert rec[..f] == meta;
    assert rec[f..] == "\n" + body;
    assert ("\n" + body)[0] == '\n';
    assert ("\n" + body)[1..] == body;
  }

  /** A record without any line feed: the meta string is the record less its
      last character, and the story is that last character. */
  lemma RecordWithoutNewline(rec: string)
    requires '\n' !in rec && rec != []
    ensures MetaString(rec) == rec[..|rec| - 1]
    ensures StoryString(rec) == [rec[|rec| - 1]]
  {
    var last := [rec[|rec| - 1]];
    assert rec[|rec| - 1..] == last;
    assert last[1..] == [];
  }

  /** An empty record has no meta tokens, so it raises. */
  lemma EmptyRecordFails(parseDate: string -> Option<Date>)
    ensures ParseRecord("", parseDate) == Err(TooFewMetaTokens(""))
  {
  }

  // ---------------------------------------------------------------------
  // The whole file
  // ---------------------------------------------------------------------

  /** The outcome of every record, in file order. */
  function Outcomes(recs: seq<string>, parseDate: string -> Option<Date>): (rs: seq<Result<StoryInfo, ReadError>>)
  {
    seq(|recs|, i requires 0 <= i < |recs| => ParseRecord(recs[i], parseDate))
  }

  /** Take the record outcomes left to right; the first record that raises
      ends the read. */
  function ParseAll(rs: seq<Result<StoryInfo, ReadError>>): Result<seq<StoryInfo>, ReadError>
  {
    if rs == [] then Ok([])
    else match ParseAll(rs[..|rs| - 1])
      case Err(e) => Err(e)
      case Ok(infos) =>
        match rs[|rs| - 1]
        case Err(e) => Err(e)
        case Ok(info) => Ok(infos + [info])
  }

  /** Every record parses. */
  predicate AllParse(recs: seq<string>, parseDate: string -> Option<Date>)
  {
    forall i :: 0 <= i < |recs| ==> ParseRecord(recs[i], parseDate).Ok?
  }

  /** Every outcome is a story. */
  predicate AllOk(rs: seq<Result<StoryInfo, ReadError>>)
  {
    forall i :: 0 <= i < |rs| ==> rs[i].Ok?
  }

  /** The `(ident, story_info)` insertions the reader performs, in order. */
  function Keyed(infos: seq<StoryInfo>): (items: seq<(string, StoryInfo)>)
  {
    seq(|infos|, i requires 0 <= i < |infos| => (infos[i].id, infos[i]))
  }

  /** What `read_data` returns for the file contents `data`. */
  function ReadStories(data: string, parseDate: string -> Option<Date>): Result<map<string, StoryInfo>, ReadError>
  {
    match ParseAll(Outcomes(Split(data, RecordSeparator), parseDate))
    case Err(e) => Err(e)
    case Ok(infos) => Ok(Dicts.FromItems(Keyed(infos)))
  }

  /** `read_data`: split the contents into records and insert each record's
      story under its id, a later record overwriting an earlier one. */
  method ReadData(data: string, parseDate: string -> Option<Date>) returns (r: Result<map<string, StoryInfo>, ReadError>)
    ensures r == ReadStories(data, parseDate)
    ensures r.Ok? ==> forall id :: id in r.value ==> r.value[id].id == id && '\n' !in r.value[id].story
  {
    var records := Split(data, RecordSeparator);
    var eventDict: map<string, StoryInfo> := map[];
    ghost var outcomes := Outcomes(records, parseDate);
    ghost var done: seq<StoryInfo> := [];
    var i := 0;
    while i < |records|
      invariant 0 <= i <= |records|
      invariant ParseAll(outcomes[..i]) == Ok(done)
      invariant eventDict == Dicts.FromItems(Keyed(done))
      invariant forall k :: 0 <= k < |done| ==> '\n' !in done[k].story
    {
      var res := ParseRecord(records[i], parseDate);
      assert res == outcomes[i];
      if res.Err? {
        ParseAllFailsAt(outcomes, i, done);
        return Err(res.error);
      }
      var info := res.value;
      eventDict := eventDict[info.id := info];
      ParseAllOkAt(outcomes, i, done);
      KeyedAppend(done, info);
      done := done + [info];
      i := i + 1;
    }
    assert outcomes[..i] == outcomes;
    r := Ok(eventDict);
    IdsMatchKeys(done);
  }

  /** One more record: the read so far, extended by that record's outcome. */
  lemma ParseAllStep(rs: seq<Result<StoryInfo, ReadError>>, i: nat)
    requires i < |rs|
    ensures ParseAll(rs[..i + 1]) ==
              match ParseAll(rs[..i])
              case Err(e) => Err(e)
              case Ok(infos) =>
                match rs[i]
                case Err(e) => Err(e)
                case Ok(info) => Ok(infos + [info])
  {
    assert rs[..i + 1][..i] == rs[..i];
    assert rs[..i + 1][i] == rs[i];
  }

  /** A record that parses extends the stories read so far. */
  lemma ParseAllOkAt(rs: seq<Result<StoryInfo, ReadError>>, i: nat, done: seq<StoryInfo>)
    requires i < |rs| && ParseAll(rs[..i]) == Ok(done) && rs[i].Ok?
    ensures ParseAll(rs[..i + 1]) == Ok(done + [rs[i].value])
  {
    ParseAllStep(rs, i);
  }

  /** The first record that raises decides the result of the whole read. */
  lemma ParseAllFailsAt(rs: seq<Result<StoryInfo, ReadError>>, i: nat, done: seq<StoryInfo>)
    requires i < |rs| && ParseAll(rs[..i]) == Ok(done) && rs[i].Err?
    ensures ParseAll(rs) == Err(rs[i].error)
  {
    ParseAllStep(rs, i);
    ParseAllErrSticks(rs[..i + 1], rs[i + 1..]);
    assert rs[..i + 1] + rs[i + 1..] == rs;
  }

  lemma KeyedAppend(infos: seq<StoryInfo>, info: StoryInfo)
    ensures Keyed(infos + [info]) == Keyed(infos) + [(info.id, info)]
  {
  }

  /** Once a prefix of the records has raised, more records change nothing. */
  lemma {:induction false} ParseAllErrSticks(a: seq<Result<StoryInfo, ReadError>>, b: seq<Result<StoryInfo, ReadError>>)
    requires ParseAll(a).Err?
    ensures ParseAll(a + b) == ParseAll(a)
    decreases |b|
  {
    if b == [] {
      assert a + b == a;
    } else {
      var b' := b[..|b| - 1];
      assert (a + b)[..|a + b| - 1] == a + b';
      ParseAllErrSticks(a, b');
    }
  }

  /** The read succeeds exactly when every record parses, and then yields
      one story per record, in order. */
  lemma {:induction false} ParseAllOk(rs: seq<Result<StoryInfo, ReadError>>)
    ensures ParseAll(rs).Ok? <==> AllOk(rs)
    ensures ParseAll(rs).Ok? ==>
              |ParseAll(rs).value| == |rs| && forall i :: 0 <= i < |rs| ==> ParseAll(rs).value[i] == rs[i].value
  {
    if rs != [] {
      var init := rs[..|rs| - 1];
      ParseAllOk(init);
      assert forall i :: 0 <= i < |init| ==> init[i] == rs[i];
    }
  }

  /** A failed read reports the exception of the first record that raises. */
  lemma {:induction false} ParseAllErr(rs: seq<Result<StoryInfo, ReadError>>)
    requires ParseAll(rs).Err?
    ensures exists i :: 0 <= i < |rs| && rs[i] == Err(ParseAll(rs).error)
                        && forall j :: 0 <= j < i ==> rs[j].Ok?
  {
    var init := rs[..|rs| - 1];
    assert forall i :: 0 <= i < |init| ==> init[i] == rs[i];
    if ParseAll(init).Err? {
      ParseAllErr(init);
    } else {
      ParseAllOk(init);
    }
  }

  /** Each story is filed under its own id, and only stories of the list
      are filed. */
  lemma IdsMatchKeys(infos: seq<StoryInfo>)
    requires forall i :: 0 <= i < |infos| ==> '\n' !in infos[i].story
    ensures forall id :: id in Dicts.FromItems(Keyed(infos)) ==>
              Dicts.FromItems(Keyed(infos))[id].id == id && '\n' !in Dicts.FromItems(Keyed(infos))[id].story
  {
    forall id | id in Dicts.FromItems(Keyed(infos))
      ensures Dicts.FromItems(Keyed(infos))[id].id == id && '\n' !in Dicts.FromItems(Keyed(infos))[id].story
    {
      Dicts.FromItemsValue(Keyed(infos), id);
    }
  }

  /** The stories read from records that all parse: one per record, in
      file order. */
  lemma StoriesOfRecords(recs: seq<string>, parseDate: string -> Option<Date>)
    requires AllParse(recs, parseDate)
    ensures ParseAll(Outcomes(recs, parseDate)).Ok?
    ensures var infos := ParseAll(Outcomes(recs, parseDate)).value;
            |infos| == |recs| && forall i :: 0 <= i < |recs| ==> infos[i] == ParseRecord(recs[i], parseDate).value
  {
    var rs := Outcomes(recs, parseDate);
    assert AllOk(rs);
    ParseAllOk(rs);
  }

  /** The corpus holds one entry per distinct id among the records. */
  lemma CorpusKeys(data: string, parseDate: string -> Option<Date>)
    requires AllParse(Split(data, RecordSeparator), parseDate)
    ensures ReadStories(data, parseDate).Ok?
    ensures var recs := Split(data, RecordSeparator);
            ReadStories(data, parseDate).value.Keys ==
              set i | 0 <= i < |recs| :: ParseRecord(recs[i], parseDate).value.id
  {
    var recs := Split(data, RecordSeparator);
    StoriesOfRecords(recs, parseDate);
    var infos := ParseAll(Outcomes(recs, parseDate)).value;
    KeysOfStories(infos);
    SameIds(recs, parseDate, infos);
  }

  /** The dict of a list of stories is keyed by exactly their ids. */
  lemma KeysOfStories(infos: seq<StoryInfo>)
    ensures Dicts.FromItems(Keyed(infos)).Keys == set i | 0 <= i < |infos| :: infos[i].id
  {
    Dicts.FromItemsKeys(Keyed(infos));
    var ids := set i | 0 <= i < |infos| :: infos[i].id;
    forall id | id in Dicts.KeysOf(Keyed(infos)) ensures id in ids {
      var i :| 0 <= i < |infos| && Keyed(infos)[i].0 == id;
      assert infos[i].id == id;
    }
    forall id | id in ids ensures id in Dicts.KeysOf(Keyed(infos)) {
      var i :| 0 <= i < |infos| && infos[i].id == id;
      assert Keyed(infos)[i].0 == id;
    }
  }

  lemma SameIds(recs: seq<string>, parseDate: string -> Option<Date>, infos: seq<StoryInfo>)
    requires AllParse(recs, parseDate)
    requires |infos| == |recs| && forall i :: 0 <= i < |recs| ==> infos[i] == ParseRecord(recs[i], parseDate).value
    ensures (set i | 0 <= i < |infos| :: infos[i].id)
            == set i | 0 <= i < |recs| :: ParseRecord(recs[i], parseDate).value.id
  {
  }

  /** A later record with the same id overwrites an earlier one: each id holds
      the story of the last record that carries it. */
  lemma CorpusLastWins(data: string, parseDate: string -> Option<Date>, i: nat)
    requires AllParse(Split(data, RecordSeparator), parseDate)
    requires i < |Split(data, RecordSeparator)|
    requires var recs := Split(data, RecordSeparator);
             forall j :: i < j < |recs| ==>
               ParseRecord(recs[j], parseDate).value.id != ParseRecord(recs[i], parseDate).value.id
    ensures ReadStories(data, parseDate).Ok?
    ensures var recs := Split(data, RecordSeparator);
            var info := ParseRecord(recs[i], parseDate).value;
            info.id in ReadStories(data, parseDate).value &&
            ReadStories(data, parseDate).value[info.id] == info
  {
    var recs := Split(data, RecordSeparator);
    StoriesOfRecords(recs, parseDate);
    var infos := ParseAll(Outcomes(recs, parseDate)).value;
    Dicts.FromItemsLastWins(Keyed(infos), i);
  }

  /** An empty file is one empty record, so the read raises. */
  lemma EmptyFileFails(parseDate: string -> Option<Date>)
    ensures ReadStories("", parseDate) == Err(TooFewMetaTokens(""))
  {
    assert Split("", RecordSeparator) == [""];
    EmptyRecordFails(parseDate);
    var rs := Outcomes([""], parseDate);
    assert rs[..0] == [];
    assert rs[0] == Err(TooFewMetaTokens(""));
    assert ParseAll(rs) == Err(TooFewMetaTokens(""));
  }

  /** A file ending in a blank line raises, whatever comes before: its last
      record is empty, or a lone line feed when the text before the blank
      line itself ended in one, and neither has a meta token. */
  lemma TrailingBlankLineFails(data: string, parseDate: string -> Option<Date>)
    ensures ReadStories(data + RecordSeparator, parseDate).Err?
  {
    var s := data + RecordSeparator;
    assert s[|s| - 2..] == RecordSeparator;
    LastRecordOfBlankEnd(s);
    var recs := Split(s, RecordSeparator);
    BlankRecordFails(recs[|recs| - 1], parseDate);
    var rs := Outcomes(recs, parseDate);
    assert rs[|rs| - 1].Err?;
    ParseAllOk(rs);
  }

  /** The last record of a text ending in `"\n\n"` is empty or a lone line feed. */
  lemma {:induction false} LastRecordOfBlankEnd(s: string)
    requires |s| >= 2 && s[|s| - 2..] == RecordSeparator
    ensures var parts := Split(s, RecordSeparator);
            parts[|parts| - 1] == "" || parts[|parts| - 1] == "\n"
    decreases |s|
  {
    BlankLineFound(s);
    var i := IndexOf(s, RecordSeparator);
    var rest := s[i + 2..];
    var tail := Split(rest, RecordSeparator);
    assert Split(s, RecordSeparator) == [s[..i]] + tail;
    if i + 2 <= |s| - 2 {
      assert rest[|rest| - 2..] == s[|s| - 2..];
      LastRecordOfBlankEnd(rest);
    } else {
      ShortRecord(rest);
      if i == |s| - 3 {
        assert rest == [s[|s| - 1]];
      }
    }
  }

  lemma BlankLineFound(s: string)
    requires |s| >= 2 && s[|s| - 2..] == RecordSeparator
    ensures 0 <= IndexOf(s, RecordSeparator) <= |s| - 2
  {
    assert OccursAt(s, RecordSeparator, |s| - 2);
  }

  lemma ShortRecord(rec: string)
    requires |rec| <= 1
    ensures Split(rec, RecordSeparator) == [rec]
  {
    assert IndexOf(rec, RecordSeparator) == -1;
  }

  /** An empty record and a lone line feed both have no meta token. */
  lemma BlankRecordFails(rec: string, parseDate: string -> Option<Date>)
    requires rec == "" || rec == "\n"
    ensures ParseRecord(rec, parseDate).Err?
  {
    if rec == "\n" {
      assert Find(rec, '\n') == 0;
      assert MetaString(rec) == "";
    }
  }

  /** The usual layout, `<date> <id>` on the meta line and the story lines
      below it: a record that reads without error whenever the date parses. */
  lemma RecordOfWords(date: string, id: string, body: string, parseDate: string -> Option<Date>)
    requires IsWord(date) && IsWord(id) && '\n' !in date + id
    requires parseDate(date).Some?
    ensures ParseRecord(date + " " + id + "\n" + body, parseDate)
            == Ok(StoryInfo(parseDate(date).value, id, Remove(body, '\n')))
  {
    TokensWord(date, ' ', id);
    TokensOfWord(id);
    assert date + " " + id == date + [' '] + id;
    assert '\n' !in date + " " + id by {
      assert date + " " + id == date + [' '] + id;
    }
    RecordLayout(date + " " + id, body, parseDate);
  }

  /** A file holding one story of two lines reads as a one-entry corpus whose
      story is the two lines run together. */
  lemma {:induction false} OneStoryFile(date: string, id: string, line1: string, line2: string,
                                        parseDate: string -> Option<Date>)
    requires IsWord(date) && IsWord(id) && '\n' !in date + id
    requires '\n' !in line1 && '\n' !in line2 && line1 != []
    requires parseDate(date).Some?
    ensures ReadStories(date + " " + id + "\n" + line1 + "\n" + line2, parseDate)
            == Ok(map[id := StoryInfo(parseDate(date).value, id, line1 + line2)])
  {
    var meta := date + " " + id;
    var body := line1 + "\n" + line2;
    var data := meta + "\n" + line1 + "\n" + line2;
    MetaLineOfWords(date, id);
    SampleRecordIsWhole(meta, line1, line2);
    SampleBody(line1, line2);
    RecordOfWords(date, id, body, parseDate);
    ThreeLines(meta, line1, line2);
    SingleRecordFile(data, parseDate, StoryInfo(parseDate(date).value, id, line1 + line2));
  }

  lemma MetaLineOfWords(date: string, id: string)
    requires '\n' !in date + id
    ensures '\n' !in date + " " + id
  {
    assert forall c :: c in date + " " + id ==> c in date + id || c == ' ';
  }

  lemma ThreeLines(a: string, b: string, c: string)
    ensures a + "\n" + b + "\n" + c == a + "\n" + (b + "\n" + c)
  {
  }

  /** A file that is one record reads as that record's story alone. */
  lemma SingleRecordFile(data: string, parseDate: string -> Option<Date>, info: StoryInfo)
    requires Split(data, RecordSeparator) == [data]
    requires ParseRecord(data, parseDate) == Ok(info)
    ensures ReadStories(data, parseDate) == Ok(map[info.id := info])
  {
    var rs := Outcomes([data], parseDate);
    assert rs == [Ok(info)];
    OneOutcome(info);
  }

  lemma OneOutcome(info: StoryInfo)
    ensures ParseAll([Ok(info)]) == Ok([info])
    ensures Dicts.FromItems(Keyed([info])) == map[info.id := info]
  {
    var rs: seq<Result<StoryInfo, ReadError>> := [Ok(info)];
    assert rs[..0] == [];
    assert ParseAll(rs) == Ok([] + [info]);
    assert [] + [info] == [info];
    assert Keyed([info]) == [(info.id, info)];
    assert [(info.id, info)][..0] == [];
  }

  /** The sample story of the TABARI format, read with a date parser that
      knows its date. The two story lines are joined with nothing between
      them, so "diplomatic" and "ties" run together. */
  lemma {:induction false} SampleStory(data: string, parseDate: string -> Option<Date>)
    requires data == "20-Jun-14 DEMO-01" + "\n" + "Arnor is about to restore full diplomatic" + "\n" + "ties with Gondor."
    requires parseDate("20-Jun-14") == Some(Date(2014, 6, 20))
    ensures ReadStories(data, parseDate)
            == Ok(map["DEMO-01" := StoryInfo(Date(2014, 6, 20), "DEMO-01",
                                            "Arnor is about to restore full diplomaticties with Gondor.")])
  {
    var date, id := "20-Jun-14", "DEMO-01";
    var line1, line2 := "Arnor is about to restore full diplomatic", "ties with Gondor.";
    SampleText(data, date, id, line1, line2);
    SampleWords(date, id, line1, line2);
    OneStoryFile(date, id, line1, line2, parseDate);
  }

  lemma {:induction false} SampleText(data: string, date: string, id: string, line1: string, line2: string)
    requires data == "20-Jun-14 DEMO-01" + "\n" + "Arnor is about to restore full diplomatic" + "\n" + "ties with Gondor."
    requires date == "20-Jun-14" && id == "DEMO-01"
    requires line1 == "Arnor is about to restore full diplomatic" && line2 == "ties with Gondor."
    ensures data == date + " " + id + "\n" + line1 + "\n" + line2
    ensures line1 + line2 == "Arnor is about to restore full diplomaticties with Gondor."
  {
    assert date + " " + id == "20-Jun-14 DEMO-01";
  }

  lemma {:induction false} SampleWords(date: string, id: string, line1: string, line2: string)
    requires date == "20-Jun-14" && id == "DEMO-01"
    requires line1 == "Arnor is about to restore full diplomatic" && line2 == "ties with Gondor."
    ensures IsWord(date) && IsWord(id) && '\n' !in date + id
    ensures '\n' !in line1 && '\n' !in line2 && line1 != []
  {
    assert date + id == "20-Jun-14DEMO-01";
    NoLineFeed(line1);
    NoLineFeed(line2);
  }

  lemma NoLineFeed(s: string)
    requires forall k :: 0 <= k < |s| ==> s[k] != '\n'
    ensures '\n' !in s
  {
  }

  lemma {:induction false} SampleBody(line1: string, line2: string)
    requires '\n' !in line1 && '\n' !in line2
    ensures Remove(line1 + "\n" + line2, '\n') == line1 + line2
  {
    RemoveAppend(line1, "\n" + line2, '\n');
    assert line1 + "\n" + line2 == line1 + ("\n" + line2);
    RemoveHead(line2, '\n');
    assert "\n" + line2 == ['\n'] + line2;
    RemoveAbsent(line1, '\n');
    RemoveAbsent(line2, '\n');
  }

  /** Three lines joined by single line feeds hold no blank line, so they
      form one record. */
  lemma {:induction false} SampleRecordIsWhole(a: string, b: string, c: string)
    requires '\n' !in a && '\n' !in b && '\n' !in c && b != []
    ensures Split(a + "\n" + b + "\n" + c, RecordSeparator) == [a + "\n" + b + "\n" + c]
  {
    var s := a + "\n" + b + "\n" + c;
    assert forall k :: 0 <= k < |a| ==> s[k] == a[k];
    assert s[|a|] == '\n';
    assert forall k :: 0 <= k < |b| ==> s[|a| + 1 + k] == b[k];
    assert s[|a| + 1 + |b|] == '\n';
    assert forall k :: 0 <= k < |c| ==> s[|a| + |b| + 2 + k] == c[k];
    NoBlankLine(s);
  }

  /** A text with no two adjacent line feeds holds no record separator. */
  lemma NoBlankLine(s: string)
    requires forall j :: 0 <= j < |s| - 1 && s[j] == '\n' ==> s[j + 1] != '\n'
    ensures IndexOf(s, RecordSeparator) == -1
  {
    forall j | 0 <= j && j + 2 <= |s|
      ensures !OccursAt(s, RecordSeparator, j)
    {
      assert s[j..j + 2][0] == s[j] && s[j..j + 2][1] == s[j + 1];
    }
  }
}
