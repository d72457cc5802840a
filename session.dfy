/**
 * Transcript loading and the session catalog (src/session.rs): decoding the
 * record lines, deriving id, summary and branch, decoding project directory
 * names, collecting every loadable transcript and ordering the catalog
 * newest first, and the "time ago" label.
 */
module Sessions {
  import opened Common
  import opened Json

  datatype Session = Session(
    id: string,
    projectPath: string,
    messages: seq<Message>,
    lastModified: nat,
    summary: string,
    gitBranch: Option<string>)

  // ---------------------------------------------------------------------
  // Record lines

  /** One line through the record decoder: the message, or nothing when it does not decode. */
  function DecodeOne(line: string, decode: string -> Option<Message>): seq<Message> {
    match decode(line)
    case Some(m) => [m]
    case None => []
  }

  /** `lines.filter_map(|l| decode(l).ok())`: the decodable lines' messages, in line order. */
  function DecodeLines(lines: seq<string>, decode: string -> Option<Message>): (r: seq<Message>)
    ensures |r| <= |lines|
  {
    if lines == [] then [] else DecodeOne(lines[0], decode) + DecodeLines(lines[1..], decode)
  }

  /** Decoding distributes over concatenation of line sequences. */
  lemma {:induction false} DecodeLinesAppend(a: seq<string>, b: seq<string>, decode: string -> Option<Message>)
    ensures DecodeLines(a + b, decode) == DecodeLines(a, decode) + DecodeLines(b, decode)
  {
    if a != [] {
      assert (a + b)[0] == a[0];
      assert (a + b)[1..] == a[1..] + b;
      DecodeLinesAppend(a[1..], b, decode);
    } else {
      assert a + b == b;
    }
  }

  /** An undecodable line is dropped without disturbing the lines around it. */
  lemma DecodeLinesSkipsBadLine(a: seq<string>, bad: string, b: seq<string>, decode: string -> Option<Message>)
    requires decode(bad).None?
    ensures DecodeLines(a + [bad] + b, decode) == DecodeLines(a, decode) + DecodeLines(b, decode)
  {
    DecodeLinesAppend(a + [bad], b, decode);
    DecodeLinesAppend(a, [bad], decode);
  }

  /** When every line decodes, message i is exactly line i's record. */
  lemma {:induction false} DecodeLinesAllGood(lines: seq<string>, decode: string -> Option<Message>)
    requires forall i :: 0 <= i < |lines| ==> decode(lines[i]).Some?
    ensures |DecodeLines(lines, decode)| == |lines|
    ensures forall i :: 0 <= i < |lines| ==> DecodeLines(lines, decode)[i] == decode(lines[i]).value
  {
    if lines != [] {
      DecodeLinesAllGood(lines[1..], decode);
    }
  }

  // ---------------------------------------------------------------------
  // Summary and branch

  /** A string `gitBranch` field. */
  function BranchOf(m: Message): Option<string> {
    StrField(m.data, "gitBranch")
  }

  /** The string `message.content` of a message of type "user". */
  function UserContent(m: Message): Option<string> {
    if m.msgType == "user" && "message" in m.data && m.data["message"].Object?
    then StrField(m.data["message"].fields, "content")
    else None
  }

  /** Index of the first message with user content. */
  function FirstUser(msgs: seq<Message>): (r: Option<nat>)
    ensures r.None? <==> forall j :: 0 <= j < |msgs| ==> UserContent(msgs[j]).None?
    ensures r.Some? ==> r.value < |msgs| && UserContent(msgs[r.value]).Some?
    ensures r.Some? ==> forall j :: 0 <= j < r.value ==> UserContent(msgs[j]).None?
  {
    if msgs == [] then None
    else if UserContent(msgs[0]).Some? then Some(0)
    else match FirstUser(msgs[1..])
      case None => None
      case Some(k) => Some(k + 1)
  }

  /** A user message with none before it is the first one. */
  lemma FirstUserAt(msgs: seq<Message>, k: nat)
    requires k < |msgs| && UserContent(msgs[k]).Some?
    requires forall j :: 0 <= j < k ==> UserContent(msgs[j]).None?
    ensures FirstUser(msgs) == Some(k)
  {
    var r := FirstUser(msgs);
    assert r.Some?;
    assert !(r.value < k);
    assert !(k < r.value);
  }

  /** Index of the last message with a string branch. */
  function LastBranchIndex(msgs: seq<Message>): (r: Option<nat>)
    ensures r.None? <==> forall j :: 0 <= j < |msgs| ==> BranchOf(msgs[j]).None?
    ensures r.Some? ==> r.value < |msgs| && BranchOf(msgs[r.value]).Some?
    ensures r.Some? ==> forall j :: r.value < j < |msgs| ==> BranchOf(msgs[j]).None?
  {
    if msgs == [] then None
    else if BranchOf(msgs[|msgs| - 1]).Some? then Some(|msgs| - 1)
    else
      assert forall j :: 0 <= j < |msgs| - 1 ==> msgs[..|msgs| - 1][j] == msgs[j];
      LastBranchIndex(msgs[..|msgs| - 1])
  }

  /** The last string branch among `msgs` (later messages override earlier ones). */
  function LastBranch(msgs: seq<Message>): Option<string> {
    match LastBranchIndex(msgs)
    case None => None
    case Some(k) => BranchOf(msgs[k])
  }

  const NoMessages := "No messages"
  const SummaryChars: nat := 60

  /** Bytes taken by one scalar value in UTF-8. */
  function Utf8Width(c: char): nat {
    if c as int < 0x80 then 1 else if c as int < 0x800 then 2 else if c as int < 0x10000 then 3 else 4
  }

  /** `str::len`: the UTF-8 byte length. */
  function Utf8Length(s: string): (n: nat)
    ensures n >= |s|
  {
    if s == [] then 0 else Utf8Width(s[0]) + Utf8Length(s[1..])
  }

  predicate IsAscii(s: string) {
    forall i :: 0 <= i < |s| ==> s[i] as int < 0x80
  }

  lemma {:induction false} AsciiUtf8Length(s: string)
    requires IsAscii(s)
    ensures Utf8Length(s) == |s|
  {
    if s != [] {
      AsciiUtf8Length(s[1..]);
    }
  }

  /** The first 60 characters, then "..." when the content is over 60 BYTES long. */
  function Summarize(content: string): (r: string)
    ensures |r| <= SummaryChars + 3
    ensures var k := if |content| < SummaryChars then |content| else SummaryChars; k <= |r| && r[..k] == content[..k]
    ensures Utf8Length(content) <= SummaryChars ==> r == content
  {
    Take(content, SummaryChars) + (if Utf8Length(content) > SummaryChars then "..." else "")
  }

  /**
   * Every truncation is marked: content over 60 characters becomes its first
   * 60 characters and "..."; shorter content is kept whole, and gets "..."
   * exactly when it is over 60 bytes.
   */
  lemma SummarizeShape(content: string)
    ensures |content| > SummaryChars ==> Summarize(content) == content[..SummaryChars] + "..."
    ensures |content| <= SummaryChars ==>
      Summarize(content) == content + (if Utf8Length(content) > SummaryChars then "..." else "")
  {
    var kept := Take(content, SummaryChars);
    if |content| > SummaryChars {
      assert kept == content[..SummaryChars];
    } else {
      assert kept == content;
    }
  }

  /** For ASCII content the ellipsis appears exactly when characters were cut. */
  lemma SummarizeAscii(content: string)
    requires IsAscii(content)
    ensures |content| <= SummaryChars ==> Summarize(content) == content
    ensures |content| > SummaryChars ==> Summarize(content) == content[..SummaryChars] + "..." && |Summarize(content)| == 63
  {
    AsciiUtf8Length(content);
  }

  /** 31 two-byte characters: nothing is cut, yet "..." is appended (62 bytes > 60). */
  lemma SummarizeMultibyteShortContent()
    ensures var content := seq(31, _ => 'é');
      Summarize(content) == content + "..." && |content| <= SummaryChars
  {
    var content := seq(31, _ => 'é');
    TwoByteUtf8Length(content);
  }

  /** Text made only of two-byte characters takes twice as many bytes as characters. */
  lemma {:induction false} TwoByteUtf8Length(s: string)
    requires forall i :: 0 <= i < |s| ==> 0x80 <= s[i] as int < 0x800
    ensures Utf8Length(s) == 2 * |s|
  {
    if s != [] {
      assert forall i :: 0 <= i < |s[1..]| ==> s[1..][i] == s[i + 1];
      TwoByteUtf8Length(s[1..]);
    }
  }

  /** The summary the metadata pass derives. */
  function SummaryFor(msgs: seq<Message>): string {
    match FirstUser(msgs)
    case None => NoMessages
    case Some(k) => Summarize(UserContent(msgs[k]).value)
  }

  /** The branch the metadata pass derives: it stops at the first user message, including that message's own branch. */
  function BranchFor(msgs: seq<Message>): Option<string> {
    match FirstUser(msgs)
    case None => LastBranch(msgs)
    case Some(k) => LastBranch(msgs[..k + 1])
  }

  /**
   * The single forward pass with the early exit: branches are recorded
   * first, and the loop ends at the first message with user content.
   */
  method ScanMetadata(msgs: seq<Message>) returns (summary: string, branch: Option<string>)
    ensures summary == SummaryFor(msgs)
    ensures branch == BranchFor(msgs)
  {
    branch := None;
    summary := NoMessages;
    var i := 0;
    while i < |msgs|
      invariant 0 <= i <= |msgs|
      invariant forall j :: 0 <= j < i ==> UserContent(msgs[j]).None?
      invariant branch == LastBranch(msgs[..i])
      invariant summary == NoMessages
    {
      var m := msgs[i];
      assert msgs[..i + 1][..i] == msgs[..i];
      if BranchOf(m).Some? {
        branch := BranchOf(m);
      }
      var content := UserContent(m);
      if content.Some? {
        summary := Summarize(content.value);
        FirstUserAt(msgs, i);
        return;
      }
      i := i + 1;
    }
    assert msgs[..i] == msgs;
  }

  /**
   * Messages after the first user message change neither summary nor branch:
   * a later `gitBranch` is not captured.
   */
  lemma MetadataIgnoresLaterMessages(msgs: seq<Message>, later: seq<Message>)
    requires FirstUser(msgs).Some?
    ensures SummaryFor(msgs + later) == SummaryFor(msgs)
    ensures BranchFor(msgs + later) == BranchFor(msgs)
  {
    var k := FirstUser(msgs).value;
    var all := msgs + later;
    assert forall j :: 0 <= j <= k ==> all[j] == msgs[j];
    FirstUserAt(all, k);
    assert all[..k + 1] == msgs[..k + 1];
  }

  /** Without a user message the summary is the placeholder and the branch is the last one of the whole transcript. */
  lemma MetadataWithoutUserMessage(msgs: seq<Message>)
    requires forall j :: 0 <= j < |msgs| ==> UserContent(msgs[j]).None?
    ensures SummaryFor(msgs) == NoMessages
    ensures BranchFor(msgs) == LastBranch(msgs)
  {
  }

  /** A user message followed by a message on another branch: the later branch is lost. */
  lemma BranchAfterSummaryIsLost()
    ensures var first := Message("user", map["message" := Object(map["content" := Str("hi")])]);
      var next := Message("assistant", map["gitBranch" := Str("dev")]);
      BranchFor([first, next]) == None && LastBranch([first, next]) == Some("dev")
  {
    var first := Message("user", map["message" := Object(map["content" := Str("hi")])]);
    var next := Message("assistant", map["gitBranch" := Str("dev")]);
    assert UserContent(first) == Some("hi");
    assert [first, next][..1] == [first];
    assert [first, next][..1][..0] == [];
  }

  // ---------------------------------------------------------------------
  // File names

  /** One unit of an operating-system file name: a character, or a byte that is not valid UTF-8. */
  datatype OsUnit = Scalar(c: char) | Stray

  /** The units of a name that is valid text. */
  function Units(s: string): seq<OsUnit> {
    seq(|s|, i requires 0 <= i < |s| => Scalar(s[i]))
  }

  lemma ToStrOfUnits(s: string)
    ensures ToStr(Units(s)) == Some(s)
  {
    var v := ToStr(Units(s)).value;
    assert |v| == |s| && forall i :: 0 <= i < |s| ==> v[i] == s[i];
    assert v == s;
  }

  /** Conversely, text read from a name gives back that name's units. */
  lemma UnitsOfToStr(u: seq<OsUnit>)
    ensures ToStr(u).Some? ==> Units(ToStr(u).value) == u
  {
    if ToStr(u).Some? {
      var v := ToStr(u).value;
      assert forall i :: 0 <= i < |u| ==> Units(v)[i] == u[i];
    }
  }

  /** `OsStr::to_str`: the text of a name, when every unit is a character. */
  function ToStr(u: seq<OsUnit>): Option<string> {
    if forall i :: 0 <= i < |u| ==> u[i].Scalar? then Some(seq(|u|, i requires 0 <= i < |u| => u[i].c)) else None
  }

  function LastDot(name: seq<OsUnit>): (r: Option<nat>)
    ensures r.None? <==> Scalar('.') !in name
    ensures r.Some? ==> r.value < |name| && name[r.value] == Scalar('.') && Scalar('.') !in name[r.value + 1..]
  {
    if name == [] then None
    else if name[|name| - 1] == Scalar('.') then Some(|name| - 1)
    else
      assert forall i :: 0 <= i < |name| - 1 ==> name[..|name| - 1][i] == name[i];
      LastDot(name[..|name| - 1])
  }

  /** `rsplit_file_at_dot`: (before, after) the last dot, as `Path::file_stem` and `Path::extension` use it. */
  function SplitAtLastDot(name: seq<OsUnit>): (Option<seq<OsUnit>>, Option<seq<OsUnit>>) {
    if name == Units("..") then (Some(name), None)
    else match LastDot(name)
      case None => (None, Some(name))
      case Some(k) => if k == 0 then (Some(name), None) else (Some(name[..k]), Some(name[k + 1..]))
  }

  function FileStem(name: seq<OsUnit>): (r: Option<seq<OsUnit>>)
    ensures r.Some? ==> r.value <= name
  {
    var (before, after) := SplitAtLastDot(name);
    if before.Some? then before else after
  }

  function Extension(name: seq<OsUnit>): Option<seq<OsUnit>> {
    var (before, after) := SplitAtLastDot(name);
    if before.Some? then after else None
  }

  /** The file's extension is the text "jsonl". */
  predicate IsTranscript(name: seq<OsUnit>) {
    Extension(name).Some? && ToStr(Extension(name).value) == Some("jsonl")
  }

  const UnknownId := "unknown"

  /** `file_stem().and_then(to_str).unwrap_or("unknown")`. */
  function SessionId(name: seq<OsUnit>): (r: string)
    ensures r == UnknownId || Units(r) <= name
  {
    match FileStem(name)
    case None => UnknownId
    case Some(stem) =>
      UnitsOfToStr(stem);
      ToStr(stem).GetOr(UnknownId)
  }

  /**
   * A name is a transcript exactly when it is a non-empty stem followed by
   * ".jsonl"; its id is then that stem as text, or "unknown" when the stem
   * is not valid text.
   */
  lemma TranscriptNames(name: seq<OsUnit>)
    ensures IsTranscript(name) <==> |name| > 6 && name[|name| - 6..] == Units(".jsonl")
    ensures IsTranscript(name) ==> FileStem(name) == Some(name[..|name| - 6])
    ensures IsTranscript(name) ==> SessionId(name) == ToStr(name[..|name| - 6]).GetOr(UnknownId)
  {
    if |name| > 6 && name[|name| - 6..] == Units(".jsonl") {
      var k := |name| - 6;
      assert name[k] == Scalar('.');
      assert name[k + 1..] == Units("jsonl");
      assert LastDot(name) == Some(k);
      assert name != Units("..");
      ToStrOfUnits("jsonl");
    }
    if IsTranscript(name) {
      var ext := Extension(name).value;
      assert ext == Units("jsonl");
      assert name != Units("..");
      var k := LastDot(name).value;
      assert k > 0 && name[k + 1..] == ext;
      assert name[k..] == [Scalar('.')] + ext;
    }
  }

  /** The file an import writes, `<id>.jsonl`, is picked up again and yields `id`. */
  lemma TranscriptNameOfId(id: string)
    requires id != []
    ensures IsTranscript(Units(id + ".jsonl"))
    ensures SessionId(Units(id + ".jsonl")) == id
  {
    var name := Units(id + ".jsonl");
    assert name[|name| - 6..] == Units(".jsonl");
    TranscriptNames(name);
    assert name[..|name| - 6] == Units(id);
    ToStrOfUnits(id);
  }

  /** A stem that is not valid text gives the id "unknown". */
  lemma UndecodableStemIsUnknown(stem: seq<OsUnit>)
    requires |stem| > 0 && Stray in stem
    ensures SessionId(stem + Units(".jsonl")) == UnknownId
  {
    var name := stem + Units(".jsonl");
    assert name[|name| - 6..] == Units(".jsonl");
    assert name[..|name| - 6] == stem;
    TranscriptNames(name);
  }

  // ---------------------------------------------------------------------
  // Loading one transcript

  datatype LoadError = ReadFailed | MetadataFailed

  /**
   * A directory entry as `Session::load` sees it: its name, its text (absent
   * when it cannot be read as text) and its modification time in whole
   * seconds since the epoch (absent when metadata fails or the time is
   * before the epoch).
   */
  datatype SessionFile = SessionFile(name: seq<OsUnit>, content: Option<string>, modified: Option<nat>)

  /** The outcome `Session::load` computes for a file. */
  function Loaded(f: SessionFile, projectPath: string, decode: string -> Option<Message>): Result<Session, LoadError> {
    if f.content.None? then Failure(ReadFailed)
    else if f.modified.None? then Failure(MetadataFailed)
    else
      var msgs := DecodeLines(Lines(f.content.value), decode);
      Success(Session(SessionId(f.name), projectPath, msgs, f.modified.value, SummaryFor(msgs), BranchFor(msgs)))
  }

  method Load(f: SessionFile, projectPath: string, decode: string -> Option<Message>) returns (r: Result<Session, LoadError>)
    ensures f.content.None? ==> r == Failure(ReadFailed)
    ensures f.content.Some? && f.modified.None? ==> r == Failure(MetadataFailed)
    ensures r.Success? <==> f.content.Some? && f.modified.Some?
    ensures r.Success? ==> r.value.messages == DecodeLines(Lines(f.content.value), decode)
    ensures r.Success? ==> r.value.id == SessionId(f.name) && r.value.projectPath == projectPath
    ensures r.Success? ==> r.value.lastModified == f.modified.value
    ensures r.Success? ==> r.value.summary == SummaryFor(r.value.messages) && r.value.gitBranch == BranchFor(r.value.messages)
  {
    if f.content.None? {
      return Failure(ReadFailed);
    }
    var messages := DecodeLines(Lines(f.content.value), decode);
    var id := SessionId(f.name);
    if f.modified.None? {
      return Failure(MetadataFailed);
    }
    var summary, branch := ScanMetadata(messages);
    r := Success(Session(id, projectPath, messages, f.modified.value, summary, branch));
  }

  // ---------------------------------------------------------------------
  // The catalog

  /** `fs::read_dir`: unreadable, or the entries in directory order, `None` for an entry the iterator reports as an error. */
  datatype Listing<T> = Unreadable | Entries(items: seq<Option<T>>)

  datatype ProjectEntry = ProjectDir(name: seq<OsUnit>, listing: Listing<SessionFile>) | NotADirectory

  datatype ScanError = HomeUnset | ListingFailed | EntryFailed

  /** The directory name decoded into a project path: every '-' back to '/' ("" when the name is not text). */
  function ProjectPathOf(dirName: seq<OsUnit>): (r: string)
    ensures '-' !in r
    ensures ToStr(dirName).Some? ==> |r| == |dirName|
  {
    ReplaceChar(ToStr(dirName).GetOr(""), '-', '/')
  }

  /** Sessions loaded from one project directory's entries, in order; a failed entry aborts, a failed load is skipped. */
  function ProjectSessions(files: seq<Option<SessionFile>>, project: string, decode: string -> Option<Message>): Result<seq<Session>, ScanError> {
    if files == [] then Success([])
    else match ProjectSessions(files[..|files| - 1], project, decode)
      case Failure(e) => Failure(e)
      case Success(acc) =>
        match files[|files| - 1]
        case None => Failure(EntryFailed)
        case Some(f) =>
          if IsTranscript(f.name) && Loaded(f, project, decode).Success?
          then Success(acc + [Loaded(f, project, decode).value])
          else Success(acc)
  }

  /** Sessions of one entry of the projects root. */
  function EntrySessions(entry: Option<ProjectEntry>, decode: string -> Option<Message>): Result<seq<Session>, ScanError> {
    match entry
    case None => Failure(EntryFailed)
    case Some(NotADirectory) => Success([])
    case Some(ProjectDir(name, Unreadable)) => Failure(ListingFailed)
    case Some(ProjectDir(name, Entries(files))) => ProjectSessions(files, ProjectPathOf(name), decode)
  }

  /** All sessions of the projects root, in directory order (before sorting). */
  function Collected(entries: seq<Option<ProjectEntry>>, decode: string -> Option<Message>): Result<seq<Session>, ScanError> {
    if entries == [] then Success([])
    else match Collected(entries[..|entries| - 1], decode)
      case Failure(e) => Failure(e)
      case Success(acc) =>
        match EntrySessions(entries[|entries| - 1], decode)
        case Failure(e) => Failure(e)
        case Success(more) => Success(acc + more)
  }

  function CatalogOf(root: Listing<ProjectEntry>, decode: string -> Option<Message>): Result<seq<Session>, ScanError> {
    match root
    case Unreadable => Failure(ListingFailed)
    case Entries(entries) => Collected(entries, decode)
  }

  /** Every session loaded from a project directory carries that directory's decoded path and a transcript's id. */
  lemma {:induction false} ProjectSessionsAreLoaded(files: seq<Option<SessionFile>>, project: string, decode: string -> Option<Message>)
    requires ProjectSessions(files, project, decode).Success?
    ensures var ss := ProjectSessions(files, project, decode).value;
      |ss| <= |files| &&
      forall s :: s in ss ==> (s.projectPath == project &&
        exists i :: (0 <= i < |files| && files[i].Some? && IsTranscript(files[i].value.name) &&
          Loaded(files[i].value, project, decode) == Success(s)))
  {
    if files != [] {
      var init := files[..|files| - 1];
      ProjectSessionsAreLoaded(init, project, decode);
      forall s | s in ProjectSessions(init, project, decode).value
        ensures exists i :: (0 <= i < |files| && files[i].Some? && IsTranscript(files[i].value.name) &&
          Loaded(files[i].value, project, decode) == Success(s))
      {
        var i :| 0 <= i < |init| && init[i].Some? && IsTranscript(init[i].value.name) &&
          Loaded(init[i].value, project, decode) == Success(s);
        assert files[i] == init[i];
      }
    }
  }

  /** Conversely, every transcript entry that loads is gathered. */
  lemma {:induction false} LoadedTranscriptIsGathered(files: seq<Option<SessionFile>>, i: nat, project: string, decode: string -> Option<Message>)
    requires ProjectSessions(files, project, decode).Success?
    requires i < |files| && files[i].Some? && IsTranscript(files[i].value.name)
    requires Loaded(files[i].value, project, decode).Success?
    ensures Loaded(files[i].value, project, decode).value in ProjectSessions(files, project, decode).value
  {
    var init := files[..|files| - 1];
    if i < |files| - 1 {
      assert init[i] == files[i];
      LoadedTranscriptIsGathered(init, i, project, decode);
    }
  }

  /** `s` is the load of one of the transcript entries of the project directory `entry`, under that directory's decoded path. */
  predicate GatheredFrom(entry: Option<ProjectEntry>, s: Session, decode: string -> Option<Message>) {
    entry.Some? && entry.value.ProjectDir? && entry.value.listing.Entries? &&
    s.projectPath == ProjectPathOf(entry.value.name) &&
    exists i :: 0 <= i < |entry.value.listing.items| && LoadsAs(entry.value.listing.items[i], ProjectPathOf(entry.value.name), decode, s)
  }

  predicate LoadsAs(file: Option<SessionFile>, project: string, decode: string -> Option<Message>, s: Session) {
    file.Some? && IsTranscript(file.value.name) && Loaded(file.value, project, decode) == Success(s)
  }

  /** Every session of the whole scan comes from a transcript of some project directory and carries that directory's decoded path. */
  lemma {:induction false} CollectedSessionsAreLoaded(entries: seq<Option<ProjectEntry>>, decode: string -> Option<Message>)
    requires Collected(entries, decode).Success?
    ensures forall s :: s in Collected(entries, decode).value ==>
      exists k :: 0 <= k < |entries| && GatheredFrom(entries[k], s, decode)
  {
    if entries != [] {
      var init := entries[..|entries| - 1];
      var last := entries[|entries| - 1];
      CollectedSessionsAreLoaded(init, decode);
      forall s | s in Collected(entries, decode).value
        ensures exists k :: 0 <= k < |entries| && GatheredFrom(entries[k], s, decode)
      {
        if s in Collected(init, decode).value {
          var k :| 0 <= k < |init| && GatheredFrom(init[k], s, decode);
          assert entries[k] == init[k];
        } else {
          var e := last.value;
          var files := e.listing.items;
          ProjectSessionsAreLoaded(files, ProjectPathOf(e.name), decode);
          var i :| 0 <= i < |files| && files[i].Some? && IsTranscript(files[i].value.name) &&
            Loaded(files[i].value, ProjectPathOf(e.name), decode) == Success(s);
          assert LoadsAs(files[i], ProjectPathOf(e.name), decode, s);
          assert GatheredFrom(entries[|entries| - 1], s, decode);
        }
      }
    }
  }

  /** Every transcript that loads, in any project directory, is in the whole scan's result. */
  lemma {:induction false} CollectedIsComplete(entries: seq<Option<ProjectEntry>>, k: nat, name: seq<OsUnit>, files: seq<Option<SessionFile>>, i: nat, decode: string -> Option<Message>)
    requires Collected(entries, decode).Success?
    requires k < |entries| && entries[k] == Some(ProjectDir(name, Entries(files)))
    requires i < |files| && files[i].Some? && IsTranscript(files[i].value.name)
    requires Loaded(files[i].value, ProjectPathOf(name), decode).Success?
    ensures Loaded(files[i].value, ProjectPathOf(name), decode).value in Collected(entries, decode).value
  {
    var init := entries[..|entries| - 1];
    if k < |entries| - 1 {
      assert init[k] == entries[k];
      CollectedIsComplete(init, k, name, files, i, decode);
    } else {
      LoadedTranscriptIsGathered(files, i, ProjectPathOf(name), decode);
    }
  }

  /** A transcript that fails to load is skipped; the scan goes on. */
  lemma FailedLoadIsSkipped(files: seq<Option<SessionFile>>, f: SessionFile, project: string, decode: string -> Option<Message>)
    requires Loaded(f, project, decode).Failure? || !IsTranscript(f.name)
    ensures ProjectSessions(files + [Some(f)], project, decode) == ProjectSessions(files, project, decode)
  {
    assert (files + [Some(f)])[..|files|] == files;
  }

  predicate NewestFirst(s: seq<Session>) {
    forall i, j :: 0 <= i < j < |s| ==> s[i].lastModified >= s[j].lastModified
  }

  lemma SwapKeepsMultiset(s: seq<Session>, p: nat, q: nat)
    requires p < |s| && q < |s|
    ensures multiset(s[p := s[q]][q := s[p]]) == multiset(s)
  {
  }

  /** While `s[j]` sinks through `s[..i + 1]`: the other elements are in order, and those past `j` are older than it. */
  predicate Sinking(s: seq<Session>, i: nat, j: nat) {
    j <= i < |s| &&
    (forall p, q :: 0 <= p < q <= i && p != j && q != j ==> s[p].lastModified >= s[q].lastModified) &&
    (forall q :: j < q <= i ==> s[q].lastModified < s[j].lastModified)
  }

  lemma SinkingStarts(s: seq<Session>, i: nat)
    requires i < |s| && NewestFirst(s[..i])
    ensures Sinking(s, i, i)
  {
    assert forall p, q :: 0 <= p < q < i ==> s[..i][p].lastModified >= s[..i][q].lastModified;
  }

  lemma SinkingSwap(s: seq<Session>, i: nat, j: nat)
    requires Sinking(s, i, j) && 0 < j && s[j - 1].lastModified < s[j].lastModified
    ensures Sinking(s[j - 1 := s[j]][j := s[j - 1]], i, j - 1)
  {
  }

  lemma SinkingStops(s: seq<Session>, i: nat, j: nat)
    requires Sinking(s, i, j) && (j == 0 || s[j - 1].lastModified >= s[j].lastModified)
    ensures NewestFirst(s[..i + 1])
  {
    assert forall p, q :: 0 <= p < q <= i ==> s[p].lastModified >= s[q].lastModified;
  }

  /** Sinks `a[i]` into the sorted prefix `a[..i]` by adjacent swaps. */
  method InsertNewest(a: array<Session>, i: nat)
    requires i < a.Length && NewestFirst(a[..i])
    modifies a
    ensures NewestFirst(a[..i + 1])
    ensures a[i + 1..] == old(a[i + 1..])
    ensures multiset(a[..]) == multiset(old(a[..]))
  {
    SinkingStarts(a[..], i);
    var j: nat := i;
    while j > 0 && a[j - 1].lastModified < a[j].lastModified
      invariant j <= i
      invariant Sinking(a[..], i, j)
      invariant a[i + 1..] == old(a[i + 1..])
      invariant multiset(a[..]) == multiset(old(a[..]))
    {
      ghost var before := a[..];
      SinkingSwap(before, i, j);
      SwapKeepsMultiset(before, j - 1, j);
      a[j - 1], a[j] := a[j], a[j - 1];
      assert a[..] == before[j - 1 := before[j]][j := before[j - 1]];
      j := j - 1;
    }
    SinkingStops(a[..], i, j);
  }

  /** In-place insertion sort, most recent first (`sort_by(|a, b| b.last_modified.cmp(&a.last_modified))`). */
  method SortNewestFirst(a: array<Session>)
    modifies a
    ensures NewestFirst(a[..])
    ensures multiset(a[..]) == multiset(old(a[..]))
  {
    var i := 0;
    while i < a.Length
      invariant 0 <= i <= a.Length
      invariant NewestFirst(a[..i])
      invariant multiset(a[..]) == multiset(old(a[..]))
    {
      InsertNewest(a, i);
      i := i + 1;
    }
    assert a[..i] == a[..];
  }

  /** The inner loop of `find_all_sessions`: the sessions of one project directory. */
  method ScanProject(files: seq<Option<SessionFile>>, project: string, decode: string -> Option<Message>)
    returns (r: Result<seq<Session>, ScanError>)
    ensures r == ProjectSessions(files, project, decode)
  {
    var found: seq<Session> := [];
    var k := 0;
    while k < |files|
      invariant 0 <= k <= |files|
      invariant ProjectSessions(files[..k], project, decode) == Success(found)
    {
      assert files[..k + 1][..k] == files[..k];
      if files[k].None? {
        ProjectPrefixFailureIsFinal(files, k + 1, project, decode);
        return Failure(EntryFailed);
      }
      var f := files[k].value;
      if IsTranscript(f.name) {
        var loaded := Load(f, project, decode);
        if loaded.Success? {
          found := found + [loaded.value];
        }
      }
      k := k + 1;
    }
    assert files[..k] == files;
    r := Success(found);
  }

  /** The outer loop of `find_all_sessions`: every project directory's sessions, in directory order. */
  method CollectSessions(entries: seq<Option<ProjectEntry>>, decode: string -> Option<Message>)
    returns (r: Result<seq<Session>, ScanError>)
    ensures r == Collected(entries, decode)
  {
    var sessions: seq<Session> := [];
    var i := 0;
    while i < |entries|
      invariant 0 <= i <= |entries|
      invariant Collected(entries[..i], decode) == Success(sessions)
    {
      assert entries[..i + 1][..i] == entries[..i];
      var entry := entries[i];
      var more := Success([]);
      if entry.None? {
        more := Failure(EntryFailed);
      } else if entry.value.ProjectDir? {
        if entry.value.listing.Unreadable? {
          more := Failure(ListingFailed);
        } else {
          more := ScanProject(entry.value.listing.items, ProjectPathOf(entry.value.name), decode);
        }
      }
      assert more == EntrySessions(entry, decode);
      if more.Failure? {
        PrefixFailureIsFinal(entries, i + 1, decode);
        return Failure(more.error);
      }
      sessions := sessions + more.value;
      i := i + 1;
    }
    assert entries[..i] == entries;
    r := Success(sessions);
  }

  /**
   * `find_all_sessions` over the tree found at HOME/.claude/projects (`root`,
   * `None` when that directory does not exist).
   */
  method FindAllSessions(home: Option<string>, root: Option<Listing<ProjectEntry>>, decode: string -> Option<Message>)
    returns (r: Result<seq<Session>, ScanError>)
    ensures home.None? ==> r == Failure(HomeUnset)
    ensures home.Some? && root.None? ==> r == Success([])
    ensures home.Some? && root.Some? && CatalogOf(root.value, decode).Failure? ==> r == Failure(CatalogOf(root.value, decode).error)
    ensures home.Some? && root.Some? && CatalogOf(root.value, decode).Success? ==>
      r.Success? && multiset(r.value) == multiset(CatalogOf(root.value, decode).value)
    ensures r.Success? ==> NewestFirst(r.value)
  {
    if home.None? {
      return Failure(HomeUnset);
    }
    if root.None? {
      return Success([]);
    }
    if root.value.Unreadable? {
      return Failure(ListingFailed);
    }
    var sessions := CollectSessions(root.value.items, decode);
    if sessions.Failure? {
      return Failure(sessions.error);
    }
    var collected := sessions.value;
    var a := new Session[|collected|](j requires 0 <= j < |collected| => collected[j]);
    assert a[..] == collected;
    SortNewestFirst(a);
    r := Success(a[..]);
  }

  /** Once a prefix of the projects root fails, the whole scan fails with that error. */
  lemma {:induction false} PrefixFailureIsFinal(entries: seq<Option<ProjectEntry>>, n: nat, decode: string -> Option<Message>)
    requires n <= |entries| && Collected(entries[..n], decode).Failure?
    ensures Collected(entries, decode) == Collected(entries[..n], decode)
    decreases |entries| - n
  {
    if n < |entries| {
      assert entries[..n + 1][..n] == entries[..n];
      PrefixFailureIsFinal(entries, n + 1, decode);
    } else {
      assert entries[..n] == entries;
    }
  }

  lemma {:induction false} ProjectPrefixFailureIsFinal(files: seq<Option<SessionFile>>, n: nat, project: string, decode: string -> Option<Message>)
    requires n <= |files| && ProjectSessions(files[..n], project, decode).Failure?
    ensures ProjectSessions(files, project, decode) == ProjectSessions(files[..n], project, decode)
    decreases |files| - n
  {
    if n < |files| {
      assert files[..n + 1][..n] == files[..n];
      ProjectPrefixFailureIsFinal(files, n + 1, project, decode);
    } else {
      assert files[..n] == files;
    }
  }

  // ---------------------------------------------------------------------
  // "Time ago"

  datatype AgoUnit = Sec | Min | Hour | Day

  function UnitSeconds(u: AgoUnit): nat {
    match u
    case Sec => 1
    case Min => 60
    case Hour => 3600
    case Day => 86400
  }

  function UnitSuffix(u: AgoUnit): char {
    match u
    case Sec => 's'
    case Min => 'm'
    case Hour => 'h'
    case Day => 'd'
  }

  /** `now.saturating_sub(last_modified)`. */
  function Elapsed(lastModified: nat, now: nat): nat {
    if now >= lastModified then now - lastModified else 0
  }

  function AgoParts(diff: nat): (nat, AgoUnit) {
    if diff < 60 then (diff, Sec)
    else if diff < 3600 then (diff / 60, Min)
    else if diff < 86400 then (diff / 3600, Hour)
    else (diff / 86400, Day)
  }

  /** `Session::time_ago` with the clock reading `now` passed in. */
  function TimeAgo(lastModified: nat, now: nat): (r: string)
    ensures |r| >= 6 && r[|r| - 4..] == " ago" && r[|r| - 5] in "smhd" && AllDigits(r[..|r| - 5])
  {
    var (n, u) := AgoParts(Elapsed(lastModified, now));
    NatToString(n) + [UnitSuffix(u)] + " ago"
  }

  /**
   * The label uses the coarsest unit not longer than the elapsed time and
   * the whole number of those units that have passed.
   */
  lemma TimeAgoBuckets(diff: nat)
    ensures var (n, u) := AgoParts(diff);
      n * UnitSeconds(u) <= diff < (n + 1) * UnitSeconds(u) &&
      (u == Sec || UnitSeconds(u) <= diff) &&
      (u == Sec ==> diff < 60) && (u == Min ==> diff < 3600) && (u == Hour ==> diff < 86400) &&
      (u == Sec || u == Min ==> n < 60) && (u == Hour ==> n < 24)
  {
  }

  /** A modification time in the future reads "0s ago". */
  lemma TimeAgoFuture(lastModified: nat, now: nat)
    requires now <= lastModified
    ensures TimeAgo(lastModified, now) == "0s ago"
  {
  }

  /** The label reads back: digits for the amount, the unit letter, then " ago". */
  lemma TimeAgoReadBack(lastModified: nat, now: nat)
    ensures var t := TimeAgo(lastModified, now);
      var (n, u) := AgoParts(Elapsed(lastModified, now));
      |t| >= 6 && t[|t| - 4..] == " ago" && t[|t| - 5] == UnitSuffix(u) &&
      AllDigits(t[..|t| - 5]) && DecimalValue(t[..|t| - 5]) == n
  {
    var (n, u) := AgoParts(Elapsed(lastModified, now));
    var t := TimeAgo(lastModified, now);
    assert t[..|t| - 5] == NatToString(n);
    DecimalOfNatToString(n);
  }
}
