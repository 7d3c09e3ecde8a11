/** `cleanup`: delete every regular file in the download folder, in the order
    `os.listdir` lists them, and stop at the first deletion that fails.  The
    listing, which entries are files, and which deletions fail are parameters. */
module Cleanup {
  import opened Wrappers
  import opened Replies

  /** One entry of the folder listing: its name, whether `os.path.isfile` holds,
      and the text of the error `os.unlink` would raise on it, if any. */
  datatype Entry = Entry(name: string, isFile: bool, deleteFailure: Option<string>)

  /** A file whose deletion fails; other entries are skipped, not deleted. */
  predicate Fails(e: Entry) {
    e.isFile && e.deleteFailure.Some?
  }

  /** The names of the file entries, in listing order. */
  function FileNames(entries: seq<Entry>): (names: seq<string>)
    ensures |names| <= |entries|
    ensures forall n :: n in names ==> exists e :: e in entries && e.isFile && e.name == n
    ensures forall e :: e in entries && e.isFile ==> e.name in names
  {
    if entries == [] then []
    else
      var last := entries[|entries| - 1];
      FileNames(entries[..|entries| - 1]) + (if last.isFile then [last.name] else [])
  }

  /** The position of the first failing deletion, if there is one. */
  function FirstFailure(entries: seq<Entry>): (k: Option<nat>)
    ensures k.None? <==> forall i :: 0 <= i < |entries| ==> !Fails(entries[i])
    ensures k.Some? ==> k.value < |entries| && Fails(entries[k.value])
    ensures k.Some? ==> forall i :: 0 <= i < k.value ==> !Fails(entries[i])
  {
    if entries == [] then None
    else if Fails(entries[0]) then Some(0)
    else
      match FirstFailure(entries[1..])
      case None => None
      case Some(k) => Some(k + 1)
  }

  /** The route.  With no failing deletion every file is deleted and the reply
      is the success message; otherwise the files before the first failure are
      deleted, the rest are kept, and the reply is a 500 naming the entry and the
      error. */
  method CleanupFolder(entries: seq<Entry>) returns (reply: Reply, deleted: seq<string>)
    ensures FirstFailure(entries).None? ==> reply == Cleaned && deleted == FileNames(entries)
    ensures FirstFailure(entries).Some? ==>
      var k := FirstFailure(entries).value;
      && reply == Error(500, DeleteFailed + entries[k].name + ": " + entries[k].deleteFailure.value)
      && deleted == FileNames(entries[..k])
  {
    deleted := [];
    var i := 0;
    while i < |entries|
      invariant 0 <= i <= |entries|
      invariant deleted == FileNames(entries[..i])
      invariant forall j :: 0 <= j < i ==> !Fails(entries[j])
    {
      var entry := entries[i];
      assert entries[..i + 1][..i] == entries[..i];
      if entry.isFile {
        if entry.deleteFailure.Some? {
          reply := Error(500, DeleteFailed + entry.name + ": " + entry.deleteFailure.value);
          return;
        }
        deleted := deleted + [entry.name];
      }
      i := i + 1;
    }
    assert entries[..i] == entries;
    reply := Cleaned;
  }
}
