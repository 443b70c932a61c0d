/** The receive folder `files/received/`: file name to contents. The name is
    the one the peer supplied, used verbatim. */
module Storage {
  import opened Net

  class Folder {
    var files: map<string, Chunk>

    constructor (initial: map<string, Chunk>)
      ensures files == initial
    {
      files := initial;
    }

    /** open(name, 'wb'): creates the file, or truncates it if present. */
    method Create(name: string)
      modifies this
      ensures files == old(files)[name := []]
    {
      files := files[name := []];
    }

    /** f.write(data) on a file opened for writing. */
    method Append(name: string, data: Chunk)
      requires name in files
      modifies this
      ensures files == old(files)[name := old(files)[name] + data]
    {
      files := files[name := files[name] + data];
    }
  }
}
