/**
 * `cronscan` of cronscan.c: the entry lists of the files of the configuration
 * directory, read by `rdcron`, joined in the order `readdir` returns the names.
 * The directory is given as its listing; a file is given as its logical lines,
 * and a name without lines is one that `rdcron` cannot open. The linked list
 * is a sequence, and `tail` is the position of its last node (-1 for NULL).
 */
module Cronscan {
  import opened CType
  import opened Types
  import opened RdcronSpec
  import Rdcron

  /** The outcome of `opendir`, `dirfd` and the `readdir` calls. */
  datatype Directory =
    | OpenFailed                                   // opendir returned NULL
    | NoDescriptor                                 // dirfd failed
    | Listing(names: seq<string>, readError: bool) // the names, then NULL with errno set or not

  /** The names `cronscan` hands to `rdcron`: all but "." and "..". */
  predicate Skipped(name: string)
  {
    name == "." || name == ".."
  }

  /** What `rdcron` returns for one name of the directory. */
  function FileList(files: map<string, seq<CString>>, name: string): seq<CronTab>
  {
    if name in files then FileEntries(files[name]) else []
  }

  /** The lists of the files named, joined in directory order. */
  function Gathered(names: seq<string>, files: map<string, seq<CString>>): seq<CronTab>
  {
    if names == [] then []
    else
      var last := names[|names| - 1];
      Gathered(names[..|names| - 1], files) + (if Skipped(last) then [] else FileList(files, last))
  }

  /**
   * What `cronscan` returns and leaves in `*list`, which held `list0` before:
   * -1 and `list0` when the directory is not readable at all; otherwise the
   * joined lists, or `list0` when no file has an entry, and -1 when `readdir`
   * ended with an error.
   */
  function ScanSpec(dir: Directory, files: map<string, seq<CString>>, list0: seq<CronTab>)
    : (seq<CronTab>, int)
  {
    match dir
    case OpenFailed => (list0, -1)
    case NoDescriptor => (list0, -1)
    case Listing(names, readError) =>
      var g := Gathered(names, files);
      (if g == [] then list0 else g, if readError then -1 else 0)
  }

  lemma GatheredSnoc(names: seq<string>, files: map<string, seq<CString>>, k: nat)
    requires k < |names|
    ensures Gathered(names[..k + 1], files) ==
              Gathered(names[..k], files) + (if Skipped(names[k]) then [] else FileList(files, names[k]))
  {
    assert names[..k + 1][..k] == names[..k];
  }

  /** The readdir loop of `cronscan`, with `*list` holding `list0` on entry. */
  method CronScan(dir: Directory, files: map<string, seq<CString>>, list0: seq<CronTab>)
    returns (list: seq<CronTab>, ret: int)
    ensures (list, ret) == ScanSpec(dir, files, list0)
  {
    list := list0;
    if dir.OpenFailed? || dir.NoDescriptor? {
      return list, -1;
    }
    var names := dir.names;
    var tail: int := -1;
    var k := 0;
    while k < |names|
      invariant k <= |names|
      invariant tail == -1 <==> Gathered(names[..k], files) == []
      invariant tail == -1 ==> list == list0
      invariant tail != -1 ==> list == Gathered(names[..k], files) && tail == |list| - 1
    {
      var name := names[k];
      GatheredSnoc(names, files, k);
      k := k + 1;
      if name == "." || name == ".." {
        continue;
      }
      var cron: seq<CronTab> := [];
      if name in files {
        cron := Rdcron.RdCron(files[name]);
      }
      if cron == [] {
        continue;
      }
      if tail == -1 {
        list := cron;
        tail := 0;
      } else {
        list := list + cron;
      }
      while tail + 1 < |list|
        invariant 0 <= tail < |list|
      {
        tail := tail + 1;
      }
    }
    assert names[..k] == names;
    ret := if dir.readError then -1 else 0;
  }

  /** "." and "..", wherever they appear among the names, never contribute entries. */
  lemma {:induction false} DotsSkipped(a: seq<string>, name: string, b: seq<string>, files: map<string, seq<CString>>)
    requires name == "." || name == ".."
    ensures Gathered(a + [name] + b, files) == Gathered(a + b, files)
  {
    GatheredAppend(a + [name], b, files);
    GatheredAppend(a, b, files);
    assert (a + [name])[..|a|] == a;
  }

  /** The joined list of two runs of names is the first run's list followed by the second's. */
  lemma {:induction false} GatheredAppend(a: seq<string>, b: seq<string>, files: map<string, seq<CString>>)
    ensures Gathered(a + b, files) == Gathered(a, files) + Gathered(b, files)
    decreases |b|
  {
    if b == [] {
      assert a + b == a;
    } else {
      var b' := b[..|b| - 1];
      assert (a + b)[..|a + b| - 1] == a + b';
      GatheredAppend(a, b', files);
    }
  }

  /** A name whose file yields no entries leaves the joined list unchanged. */
  lemma {:induction false} EmptyFileNoChange(names: seq<string>, files: map<string, seq<CString>>, name: string)
    requires FileList(files, name) == []
    ensures Gathered(names + [name], files) == Gathered(names, files)
  {
    assert (names + [name])[..|names|] == names;
  }
}
