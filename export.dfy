/**
 * The export side (src/export.rs): the container snapshot of a session, the
 * `user@host` identity, the file-name slug and timestamp, and writing the
 * compressed container.
 */
module Exporter {
  import opened Common
  import opened Json
  import opened Os
  import opened Sessions

  const FormatVersion := "1.0.0"
  const Unknown := "unknown"

  /** The session part of a container: a value copy, without file path or time. */
  datatype SessionData = SessionData(
    id: string,
    projectPath: string,
    messages: seq<Message>,
    summary: string,
    gitBranch: Option<string>)

  datatype Container = Container(version: string, exportedAt: string, exportedBy: string, session: SessionData)

  /** `format!("{}@{}", username, hostname)`, each part falling back to "unknown" on its own. */
  function Identity(user: Option<string>, host: Option<string>): string {
    user.GetOr(Unknown) + "@" + host.GetOr(Unknown)
  }

  /** `ExportedSession::from_session`, with the clock's RFC 3339 reading passed in. */
  function FromSession(s: Session, env: Env, exportedAt: string): Container {
    Container(FormatVersion, exportedAt, Identity(env.user, env.hostname),
      SessionData(s.id, s.projectPath, s.messages, s.summary, s.gitBranch))
  }

  /** The session a snapshot describes, given the modification time it does not carry. */
  function Restored(d: SessionData, lastModified: nat): Session {
    Session(d.id, d.projectPath, d.messages, lastModified, d.summary, d.gitBranch)
  }

  /**
   * The snapshot loses nothing of the session but its time: restoring it
   * gives the session back; it is tagged "1.0.0" and stamped with the given
   * time and identity, whatever the environment holds.
   */
  lemma SnapshotIsLossless(s: Session, env: Env, exportedAt: string)
    ensures Restored(FromSession(s, env, exportedAt).session, s.lastModified) == s
    ensures FromSession(s, env, exportedAt).version == "1.0.0"
    ensures FromSession(s, env, exportedAt).exportedAt == exportedAt
    ensures FromSession(s, env, exportedAt).exportedBy == Identity(env.user, env.hostname)
  {
  }

  /** The identity split at its first '@'. */
  function SplitIdentity(who: string): (string, string) {
    match IndexOf(who, '@')
    case None => (who, "")
    case Some(k) => (who[..k], who[k + 1..])
  }

  /** The identity reads back into its two parts, each "unknown" when missing, as long as the user name holds no '@'. */
  lemma IdentityReadBack(user: Option<string>, host: Option<string>)
    requires '@' !in user.GetOr(Unknown)
    ensures SplitIdentity(Identity(user, host)) == (user.GetOr(Unknown), host.GetOr(Unknown))
  {
    var u := user.GetOr(Unknown);
    var who := Identity(user, host);
    assert who[|u|] == '@' && who[..|u|] == u;
    assert IndexOf(who, '@') == Some(|u|);
    assert who[|u| + 1..] == host.GetOr(Unknown);
  }

  // ---------------------------------------------------------------------
  // Slug

  /**
   * Unicode classification and case mapping for characters beyond ASCII
   * (`char::is_alphanumeric`, `char::to_lowercase`); ASCII is fixed below.
   */
  datatype CharTables = CharTables(alphanumeric: char -> bool, lowercase: char -> string)

  predicate IsAsciiChar(c: char) {
    c as int < 0x80
  }

  predicate IsAsciiAlnum(c: char) {
    'a' <= c <= 'z' || 'A' <= c <= 'Z' || '0' <= c <= '9'
  }

  predicate IsAlphanumeric(t: CharTables, c: char) {
    if IsAsciiChar(c) then IsAsciiAlnum(c) else t.alphanumeric(c)
  }

  function AsciiLower(c: char): char {
    if 'A' <= c <= 'Z' then (c as int + 32) as char else c
  }

  function LowerChar(t: CharTables, c: char): string {
    if IsAsciiChar(c) then [AsciiLower(c)] else t.lowercase(c)
  }

  /** `str::to_lowercase`, character by character. */
  function Lowercase(t: CharTables, s: string): string {
    if s == [] then [] else LowerChar(t, s[0]) + Lowercase(t, s[1..])
  }

  /** The characters the slug filter keeps. */
  predicate Kept(t: CharTables, c: char) {
    IsAlphanumeric(t, c) || c == ' ' || c == '-'
  }

  /** `chars().filter(..)`: the kept characters in order. */
  function KeptChars(t: CharTables, s: string): (r: string)
    ensures |r| <= |s|
    ensures forall i :: 0 <= i < |r| ==> Kept(t, r[i]) && r[i] in s
  {
    if s == [] then [] else (if Kept(t, s[0]) then [s[0]] else []) + KeptChars(t, s[1..])
  }

  const SlugChars: nat := 30

  /** Filter, then take 30, then spaces to hyphens, then lowercase. */
  function Slug(t: CharTables, summary: string): string {
    Lowercase(t, ReplaceChar(Take(KeptChars(t, summary), SlugChars), ' ', '-'))
  }

  predicate SlugChar(c: char) {
    'a' <= c <= 'z' || '0' <= c <= '9' || c == '-'
  }

  lemma {:induction false} LowercaseAscii(t: CharTables, s: string)
    requires forall i :: 0 <= i < |s| ==> IsAsciiChar(s[i])
    ensures |Lowercase(t, s)| == |s|
    ensures forall i :: 0 <= i < |s| ==> Lowercase(t, s)[i] == AsciiLower(s[i])
  {
    if s != [] {
      LowercaseAscii(t, s[1..]);
    }
  }

  lemma {:induction false} LowercaseAvoids(t: CharTables, s: string, c: char)
    requires IsAsciiChar(c) && !('A' <= c <= 'Z') && !('a' <= c <= 'z')
    requires c !in s
    requires forall d :: c !in t.lowercase(d)
    ensures c !in Lowercase(t, s)
  {
    if s != [] {
      LowercaseAvoids(t, s[1..], c);
      assert c !in LowerChar(t, s[0]);
    }
  }

  /** For ASCII summaries the slug has the first min(30, kept) kept characters, each a lowercase letter, a digit or '-'. */
  lemma SlugOfAscii(t: CharTables, summary: string)
    requires IsAscii(summary)
    ensures |Slug(t, summary)| == (if |KeptChars(t, summary)| < SlugChars then |KeptChars(t, summary)| else SlugChars)
    ensures |Slug(t, summary)| <= SlugChars
    ensures forall i :: 0 <= i < |Slug(t, summary)| ==> SlugChar(Slug(t, summary)[i])
  {
    var kept := KeptChars(t, summary);
    assert forall i :: 0 <= i < |kept| ==> IsAsciiChar(kept[i]);
    var hyphenated := ReplaceChar(Take(kept, SlugChars), ' ', '-');
    assert forall i :: 0 <= i < |hyphenated| ==> IsAsciiChar(hyphenated[i]) && (IsAsciiAlnum(hyphenated[i]) || hyphenated[i] == '-');
    LowercaseAscii(t, hyphenated);
  }

  /** Whatever the summary, the slug has no space when no Unicode lowercase mapping yields one (and likewise no '/'). */
  lemma SlugHasNoSeparators(t: CharTables, summary: string)
    requires forall d :: ' ' !in t.lowercase(d) && '/' !in t.lowercase(d)
    ensures ' ' !in Slug(t, summary) && '/' !in Slug(t, summary)
  {
    var kept := Take(KeptChars(t, summary), SlugChars);
    var hyphenated := ReplaceChar(kept, ' ', '-');
    assert ' ' !in hyphenated;
    assert '/' !in hyphenated by {
      forall i | 0 <= i < |hyphenated|
        ensures hyphenated[i] != '/'
      {
        assert kept[i] == KeptChars(t, summary)[i];
      }
    }
    LowercaseAvoids(t, hyphenated, ' ');
    LowercaseAvoids(t, hyphenated, '/');
  }

  /**
   * Filtering comes before truncation: characters the filter drops do not
   * use up any of the 30 slug characters, so a summary that opens with 30 or
   * more of them still gets the slug of the rest, where truncating first
   * would keep nothing.
   */
  lemma SlugFiltersBeforeTruncating(t: CharTables, noise: string, text: string)
    requires forall i :: 0 <= i < |noise| ==> !Kept(t, noise[i])
    ensures Slug(t, noise + text) == Slug(t, text)
    ensures |noise| >= SlugChars ==> KeptChars(t, Take(noise + text, SlugChars)) == ""
  {
    KeptCharsNone(t, noise);
    KeptCharsAppend(t, noise, text);
    assert KeptChars(t, noise + text) == KeptChars(t, text);
    if |noise| >= SlugChars {
      var cut := Take(noise + text, SlugChars);
      assert cut == noise[..SlugChars];
      KeptCharsNone(t, cut);
    }
  }

  lemma {:induction false} KeptCharsNone(t: CharTables, s: string)
    requires forall i :: 0 <= i < |s| ==> !Kept(t, s[i])
    ensures KeptChars(t, s) == ""
  {
    if s != [] {
      KeptCharsNone(t, s[1..]);
    }
  }

  lemma {:induction false} KeptCharsAll(t: CharTables, s: string)
    requires forall i :: 0 <= i < |s| ==> Kept(t, s[i])
    ensures KeptChars(t, s) == s
  {
    if s != [] {
      KeptCharsAll(t, s[1..]);
    }
  }

  lemma {:induction false} KeptCharsAppend(t: CharTables, a: string, b: string)
    ensures KeptChars(t, a + b) == KeptChars(t, a) + KeptChars(t, b)
  {
    if a == [] {
      assert a + b == b;
    } else {
      assert (a + b)[0] == a[0];
      assert (a + b)[1..] == a[1..] + b;
      KeptCharsAppend(t, a[1..], b);
    }
  }

  /** A slug of an ASCII summary is its own slug. */
  lemma SlugIdempotent(t: CharTables, summary: string)
    requires IsAscii(summary)
    ensures Slug(t, Slug(t, summary)) == Slug(t, summary)
  {
    var s := Slug(t, summary);
    SlugOfAscii(t, summary);
    assert forall i :: 0 <= i < |s| ==> Kept(t, s[i]);
    KeptCharsAll(t, s);
    assert Take(s, SlugChars) == s;
    assert ReplaceChar(s, ' ', '-') == s;
    LowercaseAscii(t, s);
    assert Lowercase(t, s) == s;
  }

  // ---------------------------------------------------------------------
  // File name and output location

  /** A UTC clock reading broken into calendar fields. */
  datatype Stamp = Stamp(year: nat, month: nat, day: nat, hour: nat, minute: nat, second: nat)

  predicate ValidStamp(t: Stamp) {
    t.year <= 9999 && 1 <= t.month <= 12 && 1 <= t.day <= 31 && t.hour < 24 && t.minute < 60 && t.second <= 60
  }

  /** `%Y`: four zero-padded digits for years 0 to 9999, otherwise a '+' sign and the digits. */
  function YearText(year: nat): string {
    if year <= 9999 then ZeroPad(year, 4) else "+" + NatToString(year)
  }

  /** `format("%Y%m%d-%H%M%S")`. */
  function StampText(t: Stamp): string {
    DateText(t) + "-" + TimeText(t)
  }

  /** `%Y%m%d`. */
  function DateText(t: Stamp): string {
    YearText(t.year) + ZeroPad(t.month, 2) + ZeroPad(t.day, 2)
  }

  /** `%H%M%S`. */
  function TimeText(t: Stamp): string {
    ZeroPad(t.hour, 2) + ZeroPad(t.minute, 2) + ZeroPad(t.second, 2)
  }

  /** `d` is "YYYYMMDD": eight digits whose fields read back as the stamp's date. */
  predicate ReadsAsDate(d: string, t: Stamp) {
    |d| == 8 && AllDigits(d) &&
    DecimalValue(d[..4]) == t.year && DecimalValue(d[4..6]) == t.month && DecimalValue(d[6..]) == t.day
  }

  /** `c` is "HHMMSS": six digits whose fields read back as the stamp's time of day. */
  predicate ReadsAsTime(c: string, t: Stamp) {
    |c| == 6 && AllDigits(c) &&
    DecimalValue(c[..2]) == t.hour && DecimalValue(c[2..4]) == t.minute && DecimalValue(c[4..]) == t.second
  }

  /** `s` is "YYYYMMDD-HHMMSS" with digit fields reading back as the stamp's. */
  predicate ReadsAsStamp(s: string, t: Stamp) {
    |s| == 15 && s[8] == '-' && ReadsAsDate(s[..8], t) && ReadsAsTime(s[9..], t)
  }

  /** Three digit strings side by side: all digits, and each piece is found at its offset. */
  lemma DigitFields(a: string, b: string, c: string)
    requires AllDigits(a) && AllDigits(b) && AllDigits(c)
    ensures AllDigits(a + b + c)
    ensures (a + b + c)[..|a|] == a && (a + b + c)[|a|..|a| + |b|] == b && (a + b + c)[|a| + |b|..] == c
  {
    var s := a + b + c;
    forall i | 0 <= i < |s|
      ensures IsDigit(s[i])
    {
      if i < |a| {
        assert s[i] == a[i];
      } else if i < |a| + |b| {
        assert s[i] == b[i - |a|];
      } else {
        assert s[i] == c[i - |a| - |b|];
      }
    }
  }

  lemma DateReadBack(t: Stamp)
    requires ValidStamp(t)
    ensures ReadsAsDate(DateText(t), t)
  {
    assert Pow10(2) == 100 && Pow10(4) == 10000;
    ZeroPadReadBack(t.year, 4);
    ZeroPadReadBack(t.month, 2);
    ZeroPadReadBack(t.day, 2);
    DigitFields(ZeroPad(t.year, 4), ZeroPad(t.month, 2), ZeroPad(t.day, 2));
  }

  lemma TimeReadBack(t: Stamp)
    requires ValidStamp(t)
    ensures ReadsAsTime(TimeText(t), t)
  {
    assert Pow10(2) == 100;
    ZeroPadReadBack(t.hour, 2);
    ZeroPadReadBack(t.minute, 2);
    ZeroPadReadBack(t.second, 2);
    DigitFields(ZeroPad(t.hour, 2), ZeroPad(t.minute, 2), ZeroPad(t.second, 2));
  }

  /** A valid stamp prints as 15 characters, "YYYYMMDD-HHMMSS", whose fields read back as the stamp's. */
  lemma StampReadBack(t: Stamp)
    requires ValidStamp(t)
    ensures ReadsAsStamp(StampText(t), t)
  {
    DateReadBack(t);
    TimeReadBack(t);
    var s := StampText(t);
    assert s[..8] == DateText(t);
    assert s[9..] == TimeText(t);
  }

  /** `format!("{}-{}.json.gz", timestamp, slug)`. */
  function ExportFileName(stamp: Stamp, slug: string): string {
    StampText(stamp) + "-" + slug + ".json.gz"
  }

  const ExportsDir := ".mcc/exports"

  datatype ExportError = HomePanic | CreateDirFailed | WriteFailed

  /** The given directory, or HOME/.mcc/exports (a missing HOME makes `unwrap` panic). */
  function ExportDirectory(outputDir: Option<string>, home: Option<string>): Result<string, ExportError> {
    if outputDir.Some? then Success(outputDir.value)
    else if home.Some? then Success(Join(home.value, ExportsDir))
    else Failure(HomePanic)
  }

  /** The two clock readings an export takes: the RFC 3339 text and the calendar fields for the file name. */
  datatype Clock = Clock(rfc3339: string, stamp: Stamp)

  /** `export_to_file`: the pretty-printed container, compressed, at `path`. */
  function ExportToFile(c: Container, path: string, render: Container -> string, disk: Disk): Result<Disk, ExportError> {
    match WriteFile(disk, path, Gzip(render(c)))
    case None => Failure(WriteFailed)
    case Some(d) => Success(d)
  }

  /** `export_session`: the result (the path written, or the error) and the store afterwards. */
  function ExportSession(s: Session, outputDir: Option<string>, env: Env, clock: Clock, t: CharTables,
                         render: Container -> string, disk: Disk): (Result<string, ExportError>, Disk)
  {
    var c := FromSession(s, env, clock.rfc3339);
    match ExportDirectory(outputDir, env.home)
    case Failure(e) => (Failure(e), disk)
    case Success(dir) =>
      match CreateDirAll(disk, dir)
      case None => (Failure(CreateDirFailed), disk)
      case Some(withDir) =>
        var path := Join(dir, ExportFileName(clock.stamp, Slug(t, s.summary)));
        match ExportToFile(c, path, render, withDir)
        case Failure(e) => (Failure(e), withDir)
        case Success(written) => (Success(path), written)
  }

  /**
   * A successful export creates the output directory and writes the
   * compressed snapshot at `<dir>/<stamp>-<slug>.json.gz`, changing no other
   * file; when the file name holds no '/' it lands directly in that
   * directory. Every failure leaves the files as they were.
   */
  lemma ExportWritesOneFile(s: Session, outputDir: Option<string>, env: Env, clock: Clock, t: CharTables,
                            render: Container -> string, disk: Disk)
    ensures var (r, after) := ExportSession(s, outputDir, env, clock, t, render, disk);
      var name := ExportFileName(clock.stamp, Slug(t, s.summary));
      (r.Failure? ==> after.files == disk.files) &&
      (r.Failure? <==> (ExportDirectory(outputDir, env.home).Failure? ||
        ExportDirectory(outputDir, env.home).value in disk.readOnly ||
        Join(ExportDirectory(outputDir, env.home).value, name) in disk.readOnly)) &&
      (r.Success? ==>
        var dir := ExportDirectory(outputDir, env.home).value;
        r.value == Join(dir, name) &&
        after == disk.(dirs := disk.dirs + {dir}, files := disk.files[r.value := Gzip(render(FromSession(s, env, clock.rfc3339)))]) &&
        (dir != [] && dir[|dir| - 1] != '/' && '/' !in name ==> r.value == dir + "/" + name))
  {
    var name := ExportFileName(clock.stamp, Slug(t, s.summary));
    assert name[0] != '/' by {
      var y := YearText(clock.stamp.year);
      assert name[0] == y[0];
      if clock.stamp.year <= 9999 {
        assert IsDigit(y[0]);
      }
    }
  }

  lemma DigitsHaveNoSlash(s: string)
    requires AllDigits(s)
    ensures '/' !in s
  {
    assert forall i :: 0 <= i < |s| ==> s[i] != '/';
  }

  /** A valid stamp and a slug without '/' make a plain file name. */
  lemma FileNameHasNoSlash(stamp: Stamp, slug: string)
    requires ValidStamp(stamp) && '/' !in slug
    ensures '/' !in ExportFileName(stamp, slug)
  {
    DateReadBack(stamp);
    TimeReadBack(stamp);
    DigitsHaveNoSlash(DateText(stamp));
    DigitsHaveNoSlash(TimeText(stamp));
    var text := StampText(stamp);
    assert '/' !in text;
    var suffix := ".json.gz";
    assert '/' !in suffix by {
      assert forall i :: 0 <= i < |suffix| ==> suffix[i] != '/';
    }
    assert '/' !in text + "-" + slug;
  }


  /**
   * Whatever the summary, when no lower-case mapping yields '/' the slug
   * holds no '/', so the default export stays inside HOME/.mcc/exports.
   */
  lemma DefaultExportStaysInExportsDir(s: Session, env: Env, clock: Clock, t: CharTables, render: Container -> string, disk: Disk)
    requires forall d :: ' ' !in t.lowercase(d) && '/' !in t.lowercase(d)
    requires env.home.Some? && ValidStamp(clock.stamp)
    ensures '/' !in ExportFileName(clock.stamp, Slug(t, s.summary))
    ensures var (r, _) := ExportSession(s, None, env, clock, t, render, disk);
      r.Success? ==> r.value == Join(env.home.value, ExportsDir) + "/" + ExportFileName(clock.stamp, Slug(t, s.summary))
  {
    SlugHasNoSeparators(t, s.summary);
    FileNameHasNoSlash(clock.stamp, Slug(t, s.summary));
    ExportWritesOneFile(s, None, env, clock, t, render, disk);
    var dir := Join(env.home.value, ExportsDir);
    assert dir != [] && dir[|dir| - 1] == 's';
  }

}
