/**
 * The files the start-up script touches, as a map from path to contents, behind the three
 * calls it makes: `os.path.exists`, `open(path).read()` and `open(path, "w").write(text)`.
 */
module Files {
  import opened Wrappers

  type Disk = map<string, string>

  class FileSystem {
    var files: Disk

    constructor (files: Disk)
      ensures this.files == files
    {
      this.files := files;
    }

    /** `os.path.exists(path)` */
    method Exists(path: string) returns (present: bool)
      ensures present <==> path in files
    {
      present := path in files;
    }

    /** `open(path, "r").read()`: a missing file raises */
    method Read(path: string) returns (r: Result<string>)
      ensures path in files ==> r == Ok(files[path])
      ensures path !in files ==> r == Err(MissingFile(path))
    {
      if path in files {
        r := Ok(files[path]);
      } else {
        r := Err(MissingFile(path));
      }
    }

    /** `open(path, "w").write(text)`: creates or replaces the file */
    method Write(path: string, text: string)
      modifies this
      ensures files == old(files)[path := text]
    {
      files := files[path := text];
    }
  }
}
