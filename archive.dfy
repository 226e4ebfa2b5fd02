/**
 * The archive side of one worker run: pruning a group's history with
 * best-effort deletes, then appending the run's body to the hour's file.
 * The file system is an object whose state is the map from each regular
 * file's path to its content.
 */
module Archive {
  import opened Wrappers
  import opened PyText
  import opened Layout

  /** The regular files a process can see, by path. */
  class FileSystem {
    var files: map<string, string>

    constructor(files: map<string, string>)
      ensures this.files == files
    {
      this.files := files;
    }

    /**
     * `os.unlink(path)`: fails, changing nothing, when there is no such
     * file or when the system refuses (`refused`); otherwise removes it.
     */
    method Unlink(path: string, refused: bool) returns (ok: bool)
      modifies this
      ensures ok <==> path in old(files) && !refused
      ensures files == Remove(old(files), path, refused)
    {
      ok := path in files && !refused;
      if ok {
        files := files - {path};
      }
    }

    /** Writing `text` to `open(path, 'a')`: the file is created empty if it is missing. */
    method Append(path: string, text: string)
      modifies this
      ensures files == old(files)[path := Existing(old(files), path) + text]
    {
      files := files[path := Existing(files, path) + text];
    }
  }

  /** What a file holds, or nothing when it does not exist. */
  function Existing(files: map<string, string>, path: string): string {
    if path in files then files[path] else ""
  }

  /** The files left by one best-effort delete of `path`. */
  function Remove(files: map<string, string>, path: string, refused: bool): map<string, string> {
    if path in files && !refused then files - {path} else files
  }

  /** The files left after deleting each of `paths` in turn, skipping failures. */
  function AfterUnlinks(files: map<string, string>, paths: seq<string>, refused: set<string>): map<string, string> {
    if paths == [] then files
    else AfterUnlinks(Remove(files, paths[0], paths[0] in refused), paths[1..], refused)
  }

  /** The paths whose delete succeeds, in order: the ones reported on standard error. */
  function Unlinked(files: map<string, string>, paths: seq<string>, refused: set<string>): seq<string> {
    if paths == [] then []
    else
      var rest := Unlinked(Remove(files, paths[0], paths[0] in refused), paths[1..], refused);
      if paths[0] in files && paths[0] !in refused then [paths[0]] + rest else rest
  }

  /**
   * `logs[:-retention]`: the listed names a worker deletes. A positive
   * retention spares the last `retention` names, a zero retention deletes
   * nothing (`-0` is `0`), and a negative one deletes the first `-retention`.
   */
  function Doomed(logs: seq<string>, retention: int): (d: seq<string>)
    ensures |d| <= |logs| && d == logs[..|d|]
    ensures retention > 0 ==> |d| == if retention < |logs| then |logs| - retention else 0
    ensures retention == 0 ==> d == []
    ensures retention < 0 ==> |d| == if -retention < |logs| then -retention else |logs|
  {
    SliceTo(logs, -retention)
  }

  /** The paths of the listed names under the group's directory. */
  function Goners(destdir: string, names: seq<string>): (paths: seq<string>)
    ensures |paths| == |names|
    ensures forall i :: 0 <= i < |names| ==> paths[i] == PathJoin(destdir, names[i])
  {
    seq(|names|, i requires 0 <= i < |names| => PathJoin(destdir, names[i]))
  }

  /**
   * Deletes the names `logs[:-retention]` from the group's directory,
   * swallowing every failure, and returns the paths it reports as deleted.
   */
  method PruneHistory(fs: FileSystem, destdir: string, logs: seq<string>, retention: int, refused: set<string>)
    returns (removed: seq<string>)
    modifies fs
    ensures fs.files == AfterUnlinks(old(fs.files), Goners(destdir, Doomed(logs, retention)), refused)
    ensures removed == Unlinked(old(fs.files), Goners(destdir, Doomed(logs, retention)), refused)
  {
    var paths := Goners(destdir, Doomed(logs, retention));
    removed := [];
    for i := 0 to |paths|
      invariant AfterUnlinks(fs.files, paths[i..], refused) == AfterUnlinks(old(fs.files), paths, refused)
      invariant removed + Unlinked(fs.files, paths[i..], refused) == Unlinked(old(fs.files), paths, refused)
    {
      var history := paths[i];
      ghost var before := fs.files;
      var ok := fs.Unlink(history, history in refused);
      PruneStep(before, fs.files, paths, i, refused, removed);
      if ok {
        removed := removed + [history];
      }
    }
  }

  /** One delete of the loop above consumes one path of the remaining work. */
  lemma PruneStep(before: map<string, string>, after: map<string, string>, paths: seq<string>, i: int,
                  refused: set<string>, removed: seq<string>)
    requires 0 <= i < |paths| && after == Remove(before, paths[i], paths[i] in refused)
    ensures AfterUnlinks(before, paths[i..], refused) == AfterUnlinks(after, paths[i + 1..], refused)
    ensures removed + Unlinked(before, paths[i..], refused) ==
      (if paths[i] in before && paths[i] !in refused then removed + [paths[i]] else removed) +
      Unlinked(after, paths[i + 1..], refused)
  {
    assert paths[i..][0] == paths[i] && paths[i..][1..] == paths[i + 1..];
    if paths[i] in before && paths[i] !in refused {
      Assoc3(removed, [paths[i]], Unlinked(after, paths[i + 1..], refused));
    }
  }

  /**
   * A file survives the deletes exactly when it existed and was not among
   * the paths, or its delete was refused; survivors keep their content.
   */
  lemma {:induction false} AfterUnlinksExactly(files: map<string, string>, paths: seq<string>, refused: set<string>, p: string)
    ensures var after := AfterUnlinks(files, paths, refused);
      && (p in after <==> p in files && (p !in paths || p in refused))
      && (p in after ==> after[p] == files[p])
    decreases |paths|
  {
    if paths != [] {
      AfterUnlinksExactly(Remove(files, paths[0], paths[0] in refused), paths[1..], refused, p);
      assert p in paths <==> p == paths[0] || p in paths[1..];
    }
  }

  /** A path is reported as deleted exactly when it existed, was among the paths and was not refused. */
  lemma {:induction false} UnlinkedExactly(files: map<string, string>, paths: seq<string>, refused: set<string>, p: string)
    ensures p in Unlinked(files, paths, refused) <==> p in files && p in paths && p !in refused
    decreases |paths|
  {
    if paths != [] {
      UnlinkedExactly(Remove(files, paths[0], paths[0] in refused), paths[1..], refused, p);
      assert p in paths <==> p == paths[0] || p in paths[1..];
    }
  }

  /** A plain file name, as `os.listdir` gives: non-empty and without a `/`. */
  predicate PlainName(n: string) {
    n != [] && '/' !in n
  }

  predicate Distinct(logs: seq<string>) {
    forall i, j :: 0 <= i < j < |logs| ==> logs[i] != logs[j]
  }

  /** A listed name's path is among the goners exactly when its index is below the cut. */
  lemma GonerIndex(destdir: string, logs: seq<string>, retention: int, i: int)
    requires Distinct(logs) && forall k :: 0 <= k < |logs| ==> PlainName(logs[k])
    requires 0 <= i < |logs|
    ensures PathJoin(destdir, logs[i]) in Goners(destdir, Doomed(logs, retention)) <==> i < |Doomed(logs, retention)|
  {
    var d := Doomed(logs, retention);
    var paths := Goners(destdir, d);
    if PathJoin(destdir, logs[i]) in paths {
      var j :| 0 <= j < |paths| && paths[j] == PathJoin(destdir, logs[i]);
      assert d[j] == logs[j];
      assert !Absolute(logs[j]) && !Absolute(logs[i]) by {
        assert logs[j][0] in logs[j] && logs[i][0] in logs[i];
      }
      JoinInjective(destdir, logs[j], logs[i]);
    }
  }

  /**
   * With distinct plain names that all exist, pruning keeps exactly the
   * files listed from the cut onwards (with a positive retention: the last
   * `retention` listed) plus the ones whose delete was refused, and reports
   * exactly the others as deleted.
   */
  lemma PruneKeepsTail(files: map<string, string>, destdir: string, logs: seq<string>, retention: int, refused: set<string>, i: int)
    requires Distinct(logs) && forall k :: 0 <= k < |logs| ==> PlainName(logs[k])
    requires forall k :: 0 <= k < |logs| ==> PathJoin(destdir, logs[k]) in files
    requires 0 <= i < |logs|
    ensures var paths := Goners(destdir, Doomed(logs, retention)); var p := PathJoin(destdir, logs[i]);
      && (p in AfterUnlinks(files, paths, refused) <==> i >= |Doomed(logs, retention)| || p in refused)
      && (p in Unlinked(files, paths, refused) <==> i < |Doomed(logs, retention)| && p !in refused)
  {
    var paths := Goners(destdir, Doomed(logs, retention));
    var p := PathJoin(destdir, logs[i]);
    GonerIndex(destdir, logs, retention, i);
    AfterUnlinksExactly(files, paths, refused, p);
    UnlinkedExactly(files, paths, refused, p);
  }

  /**
   * The files after `worker((group, ts))`: the group's directory pruned,
   * then this run's body appended to the hour's file. A group name with a
   * `/` names that file inside a directory nothing creates, so
   * `open(fn, 'a')` fails and nothing is appended.
   */
  function WorkerFiles(before: map<string, string>, prefix: string, host: string, command: string,
                       group: string, ts: string, logs: seq<string>, retention: int, refused: set<string>,
                       outcome: Outcome): (after: map<string, string>)
    ensures var fn := LogPath(prefix, host, ts, group); var body := Body(ts, command, outcome);
      '/' !in group ==> fn in after && |body| <= |after[fn]| && after[fn][|after[fn]| - |body|..] == body
  {
    var pruned := AfterUnlinks(before, Goners(GroupDir(prefix, group), Doomed(logs, retention)), refused);
    var fn := LogPath(prefix, host, ts, group);
    if '/' in group then pruned else pruned[fn := Existing(pruned, fn) + Body(ts, command, outcome)]
  }

  /**
   * `worker((group, ts))` on the archive: prune the group's directory,
   * then append the banner and what the command produced to the hour's
   * file. The result is `(group, err)` when the command ran; nothing when
   * the worker raises instead: the command could not be started (`err` is
   * unbound at the `return`), or the file could not be opened.
   */
  method Worker(fs: FileSystem, prefix: string, host: string, inventory: map<string, string>,
                group: string, ts: string, logs: seq<string>, retention: int, refused: set<string>,
                outcome: Outcome)
    returns (result: Option<(string, string)>, removed: seq<string>)
    requires group in inventory
    modifies fs
    ensures removed == Unlinked(old(fs.files), Goners(GroupDir(prefix, group), Doomed(logs, retention)), refused)
    ensures fs.files == WorkerFiles(old(fs.files), prefix, host, inventory[group], group, ts, logs, retention, refused, outcome)
    ensures result == if '/' in group then None else match outcome
      case Completed(_, err) => Some((group, err))
      case Raised(_) => None
  {
    var destdir := GroupDir(prefix, group);
    removed := PruneHistory(fs, destdir, logs, retention, refused);
    var fn := PathJoin(destdir, LogName(host, ts, group));
    if '/' in group {
      result := None;
      return;
    }
    var cmd := inventory[group];
    fs.Append(fn, Body(ts, cmd, outcome));
    match outcome {
      case Completed(_, err) =>
        result := Some((group, err));
      case Raised(_) =>
        result := None;
    }
  }

  /**
   * What a worker leaves behind: for a group name without `/`, the hour's
   * file ends with this run's body, after its earlier content when it
   * survived the pruning; every other file (every file, for a name with
   * `/`) exists afterwards exactly when it survived the pruning, unchanged.
   */
  lemma WorkerEffect(before: map<string, string>, prefix: string, host: string, command: string,
                     group: string, ts: string, logs: seq<string>, retention: int, refused: set<string>,
                     outcome: Outcome, q: string)
    ensures var paths := Goners(GroupDir(prefix, group), Doomed(logs, retention));
      var after := WorkerFiles(before, prefix, host, command, group, ts, logs, retention, refused, outcome);
      var fn := LogPath(prefix, host, ts, group);
      var kept := fn in before && (fn !in paths || fn in refused);
      && ('/' !in group ==> fn in after && after[fn] == (if kept then before[fn] else "") + Body(ts, command, outcome))
      && (q != fn || '/' in group ==> (q in after <==> q in before && (q !in paths || q in refused)))
      && (q in after && (q != fn || '/' in group) ==> after[q] == before[q])
  {
    var paths := Goners(GroupDir(prefix, group), Doomed(logs, retention));
    AfterUnlinksExactly(before, paths, refused, LogPath(prefix, host, ts, group));
    AfterUnlinksExactly(before, paths, refused, q);
  }
}
