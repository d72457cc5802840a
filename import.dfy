/**
 * The import side (src/import.rs): opening a container, relocating the
 * messages' `cwd`, writing the transcript where the assistant looks for it,
 * and pointing the project registry at the imported session.
 */
module Importer {
  import opened Common
  import opened Json
  import opened Os
  import opened Sessions
  import opened Exporter

  datatype ImportError =
    | OpenFailed | DecompressFailed | ParseFailed
    | NoCurrentDir | NoHome
    | SessionDirFailed | SessionWriteFailed
    | RegistryReadFailed | RegistryParseFailed | RegistryPanicked | RegistryWriteFailed

  /** Failures that happen before anything is written. */
  predicate BeforeWriting(e: ImportError) {
    e.OpenFailed? || e.DecompressFailed? || e.ParseFailed? || e.NoCurrentDir? || e.NoHome? || e.SessionDirFailed?
  }

  /** Failures of the registry update, after the transcript is written. */
  predicate InRegistry(e: ImportError) {
    e.RegistryReadFailed? || e.RegistryParseFailed? || e.RegistryPanicked? || e.RegistryWriteFailed?
  }

  /** The serialisation library: container parsing, compact message lines, registry documents. */
  datatype JsonCodec = JsonCodec(
    parseContainer: string -> Option<Container>,
    encodeLine: Message -> string,
    parseDocument: string -> Option<Json>,
    renderDocument: Json -> string)

  // ---------------------------------------------------------------------
  // Opening a container

  /** `preview_session`: open, decompress, parse; nothing is written. */
  function PreviewSession(disk: Disk, path: string, parse: string -> Option<Container>): Result<Container, ImportError> {
    if path !in disk.files then Failure(OpenFailed)
    else match disk.files[path]
      case Text(_) => Failure(DecompressFailed)
      case Gzip(payload) =>
        match parse(payload)
        case None => Failure(ParseFailed)
        case Some(c) => Success(c)
  }

  /** What the exporter writes, the importer reads back, when parsing inverts rendering. */
  lemma PreviewOfExport(c: Container, path: string, render: Container -> string, parse: string -> Option<Container>, disk: Disk)
    requires parse(render(c)) == Some(c)
    requires ExportToFile(c, path, render, disk).Success?
    ensures PreviewSession(ExportToFile(c, path, render, disk).value, path, parse) == Success(c)
  {
  }

  // ---------------------------------------------------------------------
  // Where the transcript goes

  /** An explicit target wins; otherwise the current directory. */
  function ResolveTarget(target: Option<string>, cwd: Option<string>): Result<string, ImportError> {
    if target.Some? then Success(target.value)
    else if cwd.Some? then Success(cwd.value)
    else Failure(NoCurrentDir)
  }

  /** `project_path.replace("/", "-")`. */
  function EncodePath(path: string): (r: string)
    ensures |r| == |path| && '/' !in r
  {
    ReplaceChar(path, '/', '-')
  }

  /** Decoding a directory name undoes encoding exactly when the path holds no '-'. */
  lemma PathCodecRoundTrip(path: string)
    ensures ProjectPathOf(Units(EncodePath(path))) == path <==> '-' !in path
  {
    ToStrOfUnits(EncodePath(path));
    var back := ProjectPathOf(Units(EncodePath(path)));
    assert |back| == |path|;
    if '-' in path {
      var i :| 0 <= i < |path| && path[i] == '-';
      assert back[i] == '/';
    } else {
      assert forall i :: 0 <= i < |path| ==> back[i] == path[i];
    }
  }

  /** Two different paths share a directory when they differ only in '-' versus '/'. */
  lemma PathCodecCollision()
    ensures EncodePath("/a-b") == EncodePath("/a/b") && "/a-b" != "/a/b"
  {
    assert EncodePath("/a-b") == "-a-b";
    assert EncodePath("/a/b") == "-a-b";
  }

  const ProjectsDir := ".claude/projects"
  const RegistryName := ".claude.json"

  function ProjectsRoot(home: string): string {
    Join(home, ProjectsDir)
  }

  function SessionDir(home: string, target: string): string {
    Join(ProjectsRoot(home), EncodePath(target))
  }

  function SessionFilePath(home: string, target: string, id: string): string {
    Join(SessionDir(home, target), id + ".jsonl")
  }

  function RegistryPath(home: string): string {
    Join(home, RegistryName)
  }

  lemma JoinEndsWithSegment(base: string, segment: string)
    ensures |Join(base, segment)| >= |segment|
    ensures Join(base, segment)[|Join(base, segment)| - |segment|..] == segment
  {
  }

  /**
   * The destination is fixed by (HOME, target, id): for a non-empty target
   * and an id without '/', it is `<HOME>/.claude/projects/<encoded target>/<id>.jsonl`.
   */
  lemma DestinationLayout(home: string, target: string, id: string)
    requires target != [] && '/' !in id
    ensures SessionFilePath(home, target, id) == ProjectsRoot(home) + "/" + EncodePath(target) + "/" + id + ".jsonl"
  {
    var root := ProjectsRoot(home);
    JoinEndsWithSegment(home, ProjectsDir);
    assert root[|root| - 1] == 's';
    var enc := EncodePath(target);
    assert enc[0] != '/' && enc[|enc| - 1] != '/';
    var dir := SessionDir(home, target);
    assert dir == root + "/" + enc;
    var name := id + ".jsonl";
    assert name[0] != '/' by {
      if id != [] { assert name[0] == id[0]; }
    }
  }

  /** The id is taken from the container unchecked: an absolute id replaces the whole destination path. */
  lemma AbsoluteIdEscapesProjects(home: string, target: string)
    ensures SessionFilePath(home, target, "/tmp/x") == "/tmp/x.jsonl"
  {
  }

  /** The transcript file and the registry are never the same file. */
  lemma SessionFileIsNotRegistry(home: string, target: string, id: string)
    ensures SessionFilePath(home, target, id) != RegistryPath(home)
  {
    var f := SessionFilePath(home, target, id);
    var g := RegistryPath(home);
    JoinEndsWithSegment(SessionDir(home, target), id + ".jsonl");
    JoinEndsWithSegment(home, RegistryName);
    assert f[|f| - 1] == 'l';
    assert g[|g| - 1] == 'n';
  }

  // ---------------------------------------------------------------------
  // Relocating the messages

  /**
   * The `cwd` rewrite of one message: only a string `cwd` equal to the
   * original path becomes the target; the type and every other field are
   * kept, and any other message is passed through unchanged.
   */
  function RewriteCwd(m: Message, original: string, target: string): (r: Message)
    ensures r.msgType == m.msgType && r.data.Keys == m.data.Keys
    ensures forall k :: k in m.data && k != "cwd" ==> r.data[k] == m.data[k]
    ensures "cwd" in m.data && m.data["cwd"] == Str(original) ==> r.data["cwd"] == Str(target)
    ensures !("cwd" in m.data && m.data["cwd"] == Str(original)) ==> r == m
  {
    if StrField(m.data, "cwd") == Some(original) then m.(data := m.data["cwd" := Str(target)]) else m
  }

  /** Every message relocated, in order. */
  function RewriteAll(msgs: seq<Message>, original: string, target: string): seq<Message> {
    seq(|msgs|, i requires 0 <= i < |msgs| => RewriteCwd(msgs[i], original, target))
  }

  /** Rewriting twice with the same paths is rewriting once. */
  lemma RewriteIdempotent(msgs: seq<Message>, original: string, target: string)
    ensures RewriteAll(RewriteAll(msgs, original, target), original, target) == RewriteAll(msgs, original, target)
  {
    var once := RewriteAll(msgs, original, target);
    forall i | 0 <= i < |msgs|
      ensures RewriteCwd(once[i], original, target) == once[i]
    {
      var m := msgs[i];
      if StrField(m.data, "cwd") == Some(original) {
        assert once[i].data["cwd"] == Str(target);
        if target == original {
          assert once[i].data["cwd" := Str(target)] == once[i].data;
        }
      }
    }
  }

  /** Importing onto the path a session was recorded at changes no message. */
  lemma RewriteToOriginalIsIdentity(msgs: seq<Message>, path: string)
    ensures RewriteAll(msgs, path, path) == msgs
  {
    forall i | 0 <= i < |msgs|
      ensures RewriteCwd(msgs[i], path, path) == msgs[i]
    {
      var m := msgs[i];
      if StrField(m.data, "cwd") == Some(path) {
        assert m.data["cwd" := Str(path)] == m.data;
      }
    }
  }

  /** One compact line per message, in order. */
  function Encoded(msgs: seq<Message>, encode: Message -> string): seq<string> {
    seq(|msgs|, i requires 0 <= i < |msgs| => encode(msgs[i]))
  }

  /** The transcript text: one encoded line per message, each ended by '\n'. */
  function JsonlText(msgs: seq<Message>, encode: Message -> string): string {
    Unlines(Encoded(msgs, encode))
  }

  /** The rewrite loop: clone each message, relocate its `cwd`, append its line. */
  method RenderSession(msgs: seq<Message>, original: string, target: string, encode: Message -> string)
    returns (output: string)
    ensures output == JsonlText(RewriteAll(msgs, original, target), encode)
  {
    output := "";
    var i := 0;
    while i < |msgs|
      invariant 0 <= i <= |msgs|
      invariant output == JsonlText(RewriteAll(msgs[..i], original, target), encode)
    {
      var msg := msgs[i];
      if StrField(msg.data, "cwd") == Some(original) {
        msg := msg.(data := msg.data["cwd" := Str(target)]);
      }
      assert Encoded(RewriteAll(msgs[..i + 1], original, target), encode) ==
        Encoded(RewriteAll(msgs[..i], original, target), encode) + [encode(msg)];
      UnlinesAppend(Encoded(RewriteAll(msgs[..i], original, target), encode), encode(msg));
      output := output + encode(msg) + "\n";
      i := i + 1;
    }
    assert msgs[..i] == msgs;
  }

  /**
   * Loading the written transcript gives back exactly the relocated messages,
   * when the line encoder is decodable, writes no '\n' and ends no line in '\r'.
   */
  lemma WrittenTranscriptLoadsBack(msgs: seq<Message>, encode: Message -> string, decode: string -> Option<Message>)
    requires forall m :: decode(encode(m)) == Some(m)
    requires forall m :: '\n' !in encode(m)
    requires forall m :: encode(m) == [] || encode(m)[|encode(m)| - 1] != '\r'
    ensures DecodeLines(Lines(JsonlText(msgs, encode)), decode) == msgs
  {
    var lines := Encoded(msgs, encode);
    LinesOfUnlines(lines);
    DecodeLinesAllGood(lines, decode);
  }

  // ---------------------------------------------------------------------
  // The project registry

  const LastSessionKey := "lastSessionId"

  /** The registry has an entry keyed exactly by `target` under an object "projects". */
  predicate HasEntry(doc: Json, target: string) {
    doc.Object? && "projects" in doc.fields && doc.fields["projects"].Object? &&
    target in doc.fields["projects"].fields
  }

  function EntryOf(doc: Json, target: string): Json
    requires HasEntry(doc, target)
  {
    doc.fields["projects"].fields[target]
  }

  /**
   * `project["lastSessionId"] = json!(id)` on the entry for `target`: an
   * object entry gains or replaces that key, a null entry becomes an object
   * holding only it, any other entry panics. No entry: nothing changes.
   */
  function SetLastSessionId(doc: Json, target: string, id: string): (r: Result<Json, ImportError>)
    ensures r.Failure? <==> HasEntry(doc, target) && !EntryOf(doc, target).Object? && !EntryOf(doc, target).Null?
    ensures r.Failure? ==> r.error == RegistryPanicked
    ensures r.Success? && !HasEntry(doc, target) ==> r.value == doc
    ensures r.Success? && HasEntry(doc, target) ==>
      HasEntry(r.value, target) &&
      r.value.fields.Keys == doc.fields.Keys &&
      (forall k :: k in doc.fields && k != "projects" ==> r.value.fields[k] == doc.fields[k]) &&
      r.value.fields["projects"].fields.Keys == doc.fields["projects"].fields.Keys &&
      (forall p :: p in doc.fields["projects"].fields && p != target ==>
        r.value.fields["projects"].fields[p] == doc.fields["projects"].fields[p]) &&
      EntryOf(r.value, target).Object? &&
      LastSessionKey in EntryOf(r.value, target).fields &&
      EntryOf(r.value, target).fields[LastSessionKey] == Str(id) &&
      (EntryOf(doc, target).Object? ==>
        EntryOf(r.value, target).fields.Keys == EntryOf(doc, target).fields.Keys + {LastSessionKey} &&
        forall k :: k in EntryOf(doc, target).fields && k != LastSessionKey ==>
          EntryOf(r.value, target).fields[k] == EntryOf(doc, target).fields[k]) &&
      (EntryOf(doc, target).Null? ==> EntryOf(r.value, target).fields.Keys == {LastSessionKey})
  {
    if HasEntry(doc, target) then
      var projects := doc.fields["projects"].fields;
      var entry := projects[target];
      if entry.Object? then
        Success(doc.(fields := doc.fields["projects" := Object(projects[target := Object(entry.fields[LastSessionKey := Str(id)])])]))
      else if entry.Null? then
        Success(doc.(fields := doc.fields["projects" := Object(projects[target := Object(map[LastSessionKey := Str(id)])])]))
      else
        Failure(RegistryPanicked)
    else
      Success(doc)
  }

  /** Pointing the registry at the same session twice is pointing it once. */
  lemma SetLastSessionIdIdempotent(doc: Json, target: string, id: string)
    requires SetLastSessionId(doc, target, id).Success?
    ensures SetLastSessionId(SetLastSessionId(doc, target, id).value, target, id) == SetLastSessionId(doc, target, id)
  {
    var once := SetLastSessionId(doc, target, id).value;
    if HasEntry(doc, target) {
      var projects := once.fields["projects"].fields;
      var entry := projects[target];
      assert entry.fields[LastSessionKey := Str(id)] == entry.fields;
      assert projects[target := Object(entry.fields)] == projects;
      assert once.fields["projects" := Object(projects)] == once.fields;
    }
  }

  /** `update_claude_config`: read and parse `~/.claude.json`, edit it, write it back. */
  function UpdateClaudeConfig(disk: Disk, home: string, target: string, id: string, codec: JsonCodec): (Result<Unit, ImportError>, Disk) {
    var path := RegistryPath(home);
    match ReadText(disk, path)
    case None => (Failure(RegistryReadFailed), disk)
    case Some(text) =>
      match codec.parseDocument(text)
      case None => (Failure(RegistryParseFailed), disk)
      case Some(doc) =>
        match SetLastSessionId(doc, target, id)
        case Failure(e) => (Failure(e), disk)
        case Success(edited) =>
          match WriteFile(disk, path, Text(codec.renderDocument(edited)))
          case None => (Failure(RegistryWriteFailed), disk)
          case Some(after) => (Success(Unit), after)
  }

  /** The registry update writes the registry file and nothing else; on failure nothing at all. */
  lemma UpdateTouchesOnlyRegistry(disk: Disk, home: string, target: string, id: string, codec: JsonCodec)
    ensures var (r, after) := UpdateClaudeConfig(disk, home, target, id, codec);
      after.dirs == disk.dirs && after.readOnly == disk.readOnly &&
      (r.Failure? ==> after == disk && InRegistry(r.error)) &&
      (forall p :: p != RegistryPath(home) ==> (p in after.files <==> p in disk.files)) &&
      (forall p :: p in disk.files && p != RegistryPath(home) ==> after.files[p] == disk.files[p])
  {
  }

  // ---------------------------------------------------------------------
  // The whole import

  /** `import_session`: the path written (or the error) and the store afterwards. */
  function ImportOutcome(containerPath: string, target: Option<string>, env: Env, disk: Disk, codec: JsonCodec): (Result<string, ImportError>, Disk) {
    match PreviewSession(disk, containerPath, codec.parseContainer)
    case Failure(e) => (Failure(e), disk)
    case Success(c) =>
      match ResolveTarget(target, env.cwd)
      case Failure(e) => (Failure(e), disk)
      case Success(projectPath) =>
        if env.home.None? then (Failure(NoHome), disk)
        else
          var home := env.home.value;
          match CreateDirAll(disk, SessionDir(home, projectPath))
          case None => (Failure(SessionDirFailed), disk)
          case Some(withDir) =>
            var file := SessionFilePath(home, projectPath, c.session.id);
            match WriteFile(withDir, file, Text(ImportedText(c, projectPath, codec)))
            case None => (Failure(SessionWriteFailed), withDir)
            case Some(written) =>
              var (registered, after) := UpdateClaudeConfig(written, home, projectPath, c.session.id, codec);
              if registered.Failure? then (Failure(registered.error), after) else (Success(file), after)
  }

  method ImportSession(containerPath: string, target: Option<string>, env: Env, disk: Disk, codec: JsonCodec)
    returns (r: Result<string, ImportError>, after: Disk)
    ensures (r, after) == ImportOutcome(containerPath, target, env, disk, codec)
  {
    var preview := PreviewSession(disk, containerPath, codec.parseContainer);
    if preview.Failure? {
      return Failure(preview.error), disk;
    }
    var exported := preview.value;
    var resolved := ResolveTarget(target, env.cwd);
    if resolved.Failure? {
      return Failure(resolved.error), disk;
    }
    var projectPath := resolved.value;
    if env.home.None? {
      return Failure(NoHome), disk;
    }
    var home := env.home.value;
    var sessionDir := SessionDir(home, projectPath);
    var withDir := CreateDirAll(disk, sessionDir);
    if withDir.None? {
      return Failure(SessionDirFailed), disk;
    }
    var sessionFile := Join(sessionDir, exported.session.id + ".jsonl");
    var output := RenderSession(exported.session.messages, exported.session.projectPath, projectPath, codec.encodeLine);
    var written := WriteFile(withDir.value, sessionFile, Text(output));
    if written.None? {
      return Failure(SessionWriteFailed), withDir.value;
    }
    var registered := UpdateClaudeConfig(written.value, home, projectPath, exported.session.id, codec);
    after := registered.1;
    if registered.0.Failure? {
      r := Failure(registered.0.error);
    } else {
      r := Success(sessionFile);
    }
  }

  /** The text an import writes for a container, relative to the chosen target. */
  function ImportedText(c: Container, projectPath: string, codec: JsonCodec): string {
    JsonlText(RewriteAll(c.session.messages, c.session.projectPath, projectPath), codec.encodeLine)
  }

  /**
   * Open, decompress and parse errors, a missing current directory or HOME,
   * and a failed directory creation all leave the store untouched; the
   * preview's error is the import's error.
   */
  lemma ImportAbortsBeforeWriting(containerPath: string, target: Option<string>, env: Env, disk: Disk, codec: JsonCodec)
    ensures var (r, after) := ImportOutcome(containerPath, target, env, disk, codec);
      (PreviewSession(disk, containerPath, codec.parseContainer).Failure? ==>
        r == Failure(PreviewSession(disk, containerPath, codec.parseContainer).error) && after == disk) &&
      (r.Failure? && BeforeWriting(r.error) ==> after == disk)
  {
    var preview := PreviewSession(disk, containerPath, codec.parseContainer);
    if preview.Success? {
      var resolved := ResolveTarget(target, env.cwd);
      if resolved.Success? && env.home.Some? {
        var home := env.home.value;
        var withDir := CreateDirAll(disk, SessionDir(home, resolved.value));
        if withDir.Some? {
          var c := preview.value;
          var file := SessionFilePath(home, resolved.value, c.session.id);
          var written := WriteFile(withDir.value, file, Text(ImportedText(c, resolved.value, codec)));
          if written.Some? {
            UpdateTouchesOnlyRegistry(written.value, home, resolved.value, c.session.id, codec);
          }
        }
      }
    }
  }

  /**
   * Once the transcript is written it stays written: success and every
   * registry failure leave `<id>.jsonl` holding the relocated lines at the
   * path derived from the explicit target, or else the current directory.
   */
  lemma ImportWritesTranscriptFirst(containerPath: string, target: Option<string>, env: Env, disk: Disk, codec: JsonCodec)
    ensures var (r, after) := ImportOutcome(containerPath, target, env, disk, codec);
      (r.Success? || InRegistry(r.error)) ==>
        var c := PreviewSession(disk, containerPath, codec.parseContainer).value;
        var projectPath := if target.Some? then target.value else env.cwd.value;
        var file := SessionFilePath(env.home.value, projectPath, c.session.id);
        PreviewSession(disk, containerPath, codec.parseContainer).Success? &&
        (target.Some? || env.cwd.Some?) && env.home.Some? &&
        SessionDir(env.home.value, projectPath) in after.dirs &&
        file in after.files && after.files[file] == Text(ImportedText(c, projectPath, codec)) &&
        (r.Success? ==> r.value == file)
  {
    var (r, after) := ImportOutcome(containerPath, target, env, disk, codec);
    if r.Success? || InRegistry(r.error) {
      var c := PreviewSession(disk, containerPath, codec.parseContainer).value;
      var projectPath := if target.Some? then target.value else env.cwd.value;
      var home := env.home.value;
      var file := SessionFilePath(home, projectPath, c.session.id);
      var written := WriteFile(CreateDirAll(disk, SessionDir(home, projectPath)).value, file, Text(ImportedText(c, projectPath, codec))).value;
      SessionFileIsNotRegistry(home, projectPath, c.session.id);
      UpdateTouchesOnlyRegistry(written, home, projectPath, c.session.id, codec);
    }
  }

  /**
   * Importing the same container to the same target again changes nothing
   * further, when registry documents survive a render/parse round trip and
   * the container file is neither the transcript nor the registry.
   */
  lemma ImportIdempotent(containerPath: string, target: Option<string>, env: Env, disk: Disk, codec: JsonCodec)
    requires forall d :: codec.parseDocument(codec.renderDocument(d)) == Some(d)
    requires ImportOutcome(containerPath, target, env, disk, codec).0.Success?
    requires containerPath != ImportOutcome(containerPath, target, env, disk, codec).0.value
    requires env.home.Some? ==> containerPath != RegistryPath(env.home.value)
    ensures var (_, after) := ImportOutcome(containerPath, target, env, disk, codec);
      ImportOutcome(containerPath, target, env, after, codec) == ImportOutcome(containerPath, target, env, disk, codec)
  {
    var (r, after) := ImportOutcome(containerPath, target, env, disk, codec);
    var c := PreviewSession(disk, containerPath, codec.parseContainer).value;
    var projectPath := ResolveTarget(target, env.cwd).value;
    var home := env.home.value;
    var dir := SessionDir(home, projectPath);
    var file := SessionFilePath(home, projectPath, c.session.id);
    var text := ImportedText(c, projectPath, codec);
    var withDir := CreateDirAll(disk, dir).value;
    var written := WriteFile(withDir, file, Text(text)).value;
    SessionFileIsNotRegistry(home, projectPath, c.session.id);
    var reg := RegistryPath(home);
    var doc := codec.parseDocument(ReadText(written, reg).value).value;
    var edited := SetLastSessionId(doc, projectPath, c.session.id).value;
    assert after == written.(files := written.files[reg := Text(codec.renderDocument(edited))]);
    // The second run opens the same container and rewrites the same file.
    assert after.files[containerPath] == disk.files[containerPath];
    assert PreviewSession(after, containerPath, codec.parseContainer) == Success(c);
    var withDir2 := CreateDirAll(after, dir).value;
    assert withDir2 == after;
    var written2 := WriteFile(withDir2, file, Text(text)).value;
    assert written2.files == after.files;
    assert written2 == after;
    // The registry reads back as the edited document, which the edit leaves alone.
    assert ReadText(written2, reg) == Some(codec.renderDocument(edited));
    SetLastSessionIdIdempotent(doc, projectPath, c.session.id);
    assert SetLastSessionId(edited, projectPath, c.session.id) == Success(edited);
    var after2 := WriteFile(written2, reg, Text(codec.renderDocument(edited))).value;
    assert after2.files == after.files;
  }

  /**
   * Exporting a session and importing it at the path it was recorded at
   * writes its messages unchanged, and loading that file yields them again.
   */
  lemma ExportImportRoundTrip(s: Session, env: Env, exportedAt: string, codec: JsonCodec, decode: string -> Option<Message>)
    requires forall m :: decode(codec.encodeLine(m)) == Some(m)
    requires forall m :: '\n' !in codec.encodeLine(m)
    requires forall m :: codec.encodeLine(m) == [] || codec.encodeLine(m)[|codec.encodeLine(m)| - 1] != '\r'
    ensures ImportedText(FromSession(s, env, exportedAt), s.projectPath, codec) == JsonlText(s.messages, codec.encodeLine)
    ensures DecodeLines(Lines(ImportedText(FromSession(s, env, exportedAt), s.projectPath, codec)), decode) == s.messages
  {
    RewriteToOriginalIsIdentity(s.messages, s.projectPath);
    WrittenTranscriptLoadsBack(s.messages, codec.encodeLine, decode);
  }
}
