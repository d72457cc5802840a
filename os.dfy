/**
 * The ambient state the tool reads and writes: environment values and a
 * file store. Operations that fail in the operating system are those on
 * paths listed in `readOnly`.
 */
module Os {
  import opened Common

  /** `HOME`, `USER`, the host name and the current directory; `None` when unavailable or not valid text. */
  datatype Env = Env(home: Option<string>, user: Option<string>, hostname: Option<string>, cwd: Option<string>)

  /** A file's content: plain text, or a gzip stream whose decompressed text is `payload`. */
  datatype Blob = Text(text: string) | Gzip(payload: string)

  datatype Disk = Disk(dirs: set<string>, files: map<string, Blob>, readOnly: set<string>)

  /** `fs::create_dir_all`: fails on a read-only location, otherwise records the directory. */
  function CreateDirAll(disk: Disk, path: string): Option<Disk> {
    if path in disk.readOnly then None else Some(disk.(dirs := disk.dirs + {path}))
  }

  /** `fs::write` / `File::create`: fails on a read-only location, otherwise replaces the file's content. */
  function WriteFile(disk: Disk, path: string, content: Blob): Option<Disk> {
    if path in disk.readOnly then None else Some(disk.(files := disk.files[path := content]))
  }

  /** `fs::read_to_string`: the text of an existing text file. */
  function ReadText(disk: Disk, path: string): Option<string> {
    if path in disk.files && disk.files[path].Text? then Some(disk.files[path].text) else None
  }
}
