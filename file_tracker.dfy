/**
 * `get_updated_files`, `load_last_file_list` and `save_current_file_list`: the
 * container's listing is compared with the snapshot of names saved by the previous
 * run, and the snapshot is then overwritten with the current listing.
 */
module FileTracker {
  import opened Wrappers
  import opened Collections
  import opened TextExtractor

  /** The snapshot blob: missing, unreadable as a JSON list, or a saved list of names. */
  datatype Snapshot = Absent | Corrupt | Saved(names: seq<string>)

  /** The three sets `get_updated_files` turns into lists. */
  datatype FileDiff = FileDiff(newFiles: set<string>, deletedFiles: set<string>, updatedFiles: set<string>)

  /** `set(current) - set(previous)`, `set(previous) - set(current)`, `set(current) & set(previous)`. */
  function Diff(current: seq<string>, previous: seq<string>): (d: FileDiff)
    ensures d.newFiles !! d.deletedFiles && d.newFiles !! d.updatedFiles && d.deletedFiles !! d.updatedFiles
    ensures d.newFiles + d.updatedFiles == AsSet(current)
    ensures d.deletedFiles + d.updatedFiles == AsSet(previous)
  {
    FileDiff(AsSet(current) - AsSet(previous), AsSet(previous) - AsSet(current), AsSet(current) * AsSet(previous))
  }

  /** The three disjointness and two covering facts determine the diff completely. */
  lemma DiffUnique(current: seq<string>, previous: seq<string>, d: FileDiff)
    requires d.newFiles !! d.deletedFiles && d.newFiles !! d.updatedFiles && d.deletedFiles !! d.updatedFiles
    requires d.newFiles + d.updatedFiles == AsSet(current)
    requires d.deletedFiles + d.updatedFiles == AsSet(previous)
    ensures d == Diff(current, previous)
  {
    var e := Diff(current, previous);
    assert d.updatedFiles == e.updatedFiles by {
      forall x | x in e.updatedFiles ensures x in d.updatedFiles {
        assert x in AsSet(current) && x in AsSet(previous);
      }
    }
  }

  /** With no previous snapshot every current name is new and nothing is deleted or kept. */
  lemma DiffAgainstNothing(current: seq<string>)
    ensures Diff(current, []) == FileDiff(AsSet(current), {}, {})
  {
    assert AsSet<string>([]) == {};
  }

  lemma DiffExample()
    ensures Diff(["b.pdf", "c.pdf"], ["a.pdf", "b.pdf"]) == FileDiff({"c.pdf"}, {"a.pdf"}, {"b.pdf"})
  {
    var current: seq<string> := ["b.pdf", "c.pdf"];
    var previous: seq<string> := ["a.pdf", "b.pdf"];
    assert AsSet(current) == {"b.pdf", "c.pdf"};
    assert AsSet(previous) == {"a.pdf", "b.pdf"};
    assert "a.pdf" != "c.pdf" && "a.pdf" != "b.pdf" && "b.pdf" != "c.pdf";
  }

  /**
   * Python's `==` between a `str` and a `list` is always False. func_module.py:99
   * compares every listed name with `last_file_list`, which at that point is the loaded
   * list of names (the local rebinding at func_module.py:96 hides the snapshot key).
   */
  function PyStrEqualsList(name: string, list: seq<string>): bool
  {
    false
  }

  /** func_module.py:99 as written: keep each name that differs from the loaded list. */
  function FilterAsWritten(names: seq<string>, loaded: seq<string>): seq<string>
  {
    if names == [] then []
    else (if !PyStrEqualsList(names[0], loaded) then [names[0]] else []) + FilterAsWritten(names[1..], loaded)
  }

  /** The filter as written keeps every name, so the snapshot key is diffed like a document. */
  lemma {:induction false} FilterAsWrittenKeepsAll(names: seq<string>, loaded: seq<string>)
    ensures FilterAsWritten(names, loaded) == names
  {
    if names != [] {
      FilterAsWrittenKeepsAll(names[1..], loaded);
      assert [names[0]] + names[1..] == names;
    }
  }

  /** A listing holding the snapshot key keeps it after the filter as written. */
  lemma FilterAsWrittenKeepsSnapshotKey(key: string, names: seq<string>, loaded: seq<string>)
    requires key in names
    ensures key in FilterAsWritten(names, loaded)
  {
    FilterAsWrittenKeepsAll(names, loaded);
  }

  /** func_module.py:99 as its comment intends: drop the snapshot's own key from the listing. */
  function ExcludeSnapshotKey(names: seq<string>, key: string): (r: seq<string>)
    ensures AsSet(r) == AsSet(names) - {key}
    ensures Distinct(names) ==> Distinct(r)
    ensures |r| <= |names|
  {
    if names == [] then []
    else
      var rest := ExcludeSnapshotKey(names[1..], key);
      assert AsSet(names) == {names[0]} + AsSet(names[1..]);
      if names[0] == key then rest
      else
        assert AsSet([names[0]] + rest) == {names[0]} + AsSet(rest);
        assert Distinct(names) ==> names[0] !in names[1..];
        [names[0]] + rest
  }

  /** The corrected filter removes the key, keeps every other name, and keeps the listing order. */
  lemma {:induction false} ExcludeSnapshotKeyKeepsOthers(names: seq<string>, key: string, i: nat, j: nat)
    requires i < j < |names| && names[i] != key && names[j] != key
    ensures exists a, b ::
      (0 <= a < b < |ExcludeSnapshotKey(names, key)|
       && ExcludeSnapshotKey(names, key)[a] == names[i] && ExcludeSnapshotKey(names, key)[b] == names[j])
  {
    var r := ExcludeSnapshotKey(names, key);
    var rest := ExcludeSnapshotKey(names[1..], key);
    if i == 0 {
      assert r == [names[0]] + rest;
      assert names[j] in AsSet(rest) by { assert names[1..][j - 1] == names[j]; }
      var b' :| 0 <= b' < |rest| && rest[b'] == names[j];
      assert r[0] == names[i] && r[b' + 1] == names[j];
    } else {
      ExcludeSnapshotKeyKeepsOthers(names[1..], key, i - 1, j - 1);
      var a', b' :| 0 <= a' < b' < |rest| && rest[a'] == names[1..][i - 1] && rest[b'] == names[1..][j - 1];
      if names[0] == key {
        assert r == rest;
        assert r[a'] == names[i] && r[b'] == names[j];
      } else {
        assert r == [names[0]] + rest;
        assert r[a' + 1] == names[i] && r[b' + 1] == names[j];
      }
    }
  }

  /**
   * How func_module.py:99 filters the listing: `KeepAll` is the code as written,
   * `ExcludeKey` drops the snapshot's own key as the comment on line 98 intends.
   */
  datatype SnapshotFilter = KeepAll | ExcludeKey

  /** `current_file_list` after func_module.py:99, from the listing and the loaded snapshot. */
  function CurrentFileList(filter: SnapshotFilter, listed: seq<string>, loaded: seq<string>, key: string): (r: seq<string>)
    ensures AsSet(r) == AsSet(listed) - (if filter.ExcludeKey? then {key} else {})
    ensures Distinct(listed) ==> Distinct(r)
  {
    match filter
    case KeepAll => FilterAsWrittenKeepsAll(listed, loaded); FilterAsWritten(listed, loaded)
    case ExcludeKey => ExcludeSnapshotKey(listed, key)
  }

  /** `list(s)`: the elements of a set, each once, in an order Python does not specify. */
  method SetToList(s: set<string>) returns (xs: seq<string>)
    ensures Distinct(xs) && AsSet(xs) == s
  {
    xs := [];
    var rest := s;
    while rest != {}
      invariant rest !! AsSet(xs) && rest + AsSet(xs) == s
      invariant Distinct(xs)
      decreases rest
    {
      var x :| x in rest;
      assert AsSet(xs + [x]) == AsSet(xs) + {x};
      xs := xs + [x];
      rest := rest - {x};
    }
  }

  /** What downloading the blob `name` and opening it yields during extraction (None: no such blob). */
  function Download(documents: map<string, Document>, name: string): Option<Document>
  {
    if name in documents then Some(documents[name]) else None
  }

  /**
   * The blob container: the PDF blobs by name and the snapshot blob stored under
   * `snapshotKey` (the `BlobStorage_last_file_list` setting). The snapshot blob holds
   * JSON, not a PDF; `snapshotAsPdf` is what `fitz.open` makes of its bytes when the
   * extractor is handed its name (PyMuPDF refuses such data: `Unopenable`).
   */
  class Container {
    const snapshotKey: string
    const snapshotAsPdf: Document
    var documents: map<string, Document>
    var snapshot: Snapshot
    /** How many times the snapshot blob has been uploaded. */
    ghost var snapshotWrites: nat

    ghost predicate Valid()
      reads this
    {
      snapshotKey !in documents
    }

    constructor (snapshotKey: string, snapshotAsPdf: Document, documents: map<string, Document>, snapshot: Snapshot)
      requires snapshotKey !in documents
      ensures Valid()
      ensures this.snapshotKey == snapshotKey && this.snapshotAsPdf == snapshotAsPdf
      ensures this.documents == documents && this.snapshot == snapshot
      ensures snapshotWrites == 0
    {
      this.snapshotKey := snapshotKey;
      this.snapshotAsPdf := snapshotAsPdf;
      this.documents := documents;
      this.snapshot := snapshot;
      snapshotWrites := 0;
    }

    /** Every blob of the container by name: the documents, and the snapshot blob once it exists. */
    function Blobs(): map<string, Document>
      reads this
    {
      if snapshot.Absent? then documents else documents[snapshotKey := snapshotAsPdf]
    }

    /** The names `list_blobs()` reports. */
    function Listing(): set<string>
      reads this
    {
      Blobs().Keys
    }

    /** The names of all blobs in the container, as `list_blobs` yields them. */
    method ListBlobs() returns (names: seq<string>)
      ensures Distinct(names) && AsSet(names) == Listing()
    {
      names := SetToList(Listing());
    }

    /** `load_last_file_list`: any failure to read or parse the snapshot gives the empty list. */
    method LoadLastFileList() returns (names: seq<string>)
      ensures snapshot.Saved? ==> names == snapshot.names
      ensures !snapshot.Saved? ==> names == []
    {
      match snapshot
      case Saved(saved) => names := saved;
      case _ => names := [];
    }

    /** `save_current_file_list`: overwrite the snapshot blob with `names`. */
    method SaveCurrentFileList(names: seq<string>)
      modifies this
      ensures snapshot == Saved(names) && snapshotWrites == old(snapshotWrites) + 1
      ensures documents == old(documents)
    {
      snapshot := Saved(names);
      snapshotWrites := snapshotWrites + 1;
    }

    /**
     * `get_updated_files`, with func_module.py:99 filtered as `filter` says. `current` is the
     * list saved as the new snapshot and `previous` the list loaded from the old one. As
     * written, once the snapshot blob exists its own key is listed, saved and diffed.
     */
    method GetUpdatedFiles(filter: SnapshotFilter)
      returns (newFiles: seq<string>, deletedFiles: seq<string>, updatedFiles: seq<string>,
               ghost current: seq<string>, ghost previous: seq<string>)
      requires Valid()
      modifies this
      ensures Valid() && documents == old(documents)
      ensures previous == (if old(snapshot).Saved? then old(snapshot).names else [])
      ensures Distinct(current)
      ensures AsSet(current) == old(Listing()) - (if filter.ExcludeKey? then {snapshotKey} else {})
      ensures snapshot == Saved(current) && snapshotWrites == old(snapshotWrites) + 1
      ensures Diff(current, previous) == FileDiff(AsSet(newFiles), AsSet(deletedFiles), AsSet(updatedFiles))
      ensures Distinct(newFiles) && Distinct(deletedFiles) && Distinct(updatedFiles)
      ensures filter.ExcludeKey? ==> snapshotKey !in AsSet(newFiles) + AsSet(updatedFiles)
      ensures filter.KeepAll? && !old(snapshot).Absent? ==> snapshotKey in AsSet(newFiles) + AsSet(updatedFiles)
    {
      var listed := ListBlobs();
      var loaded := LoadLastFileList();
      var kept := CurrentFileList(filter, listed, loaded, snapshotKey);
      current, previous := kept, loaded;
      var d := Diff(kept, loaded);
      newFiles := SetToList(d.newFiles);
      deletedFiles := SetToList(d.deletedFiles);
      updatedFiles := SetToList(d.updatedFiles);
      SaveCurrentFileList(kept);
    }
  }
}
