/**
 * Where a group's output goes and what one run appends there: the
 * archive path `prefix/group/host-<hour>-group.dat` and the body made of
 * the heartbeat banner, the standard output and the error section.
 */
module Layout {
  import opened PyText
  import opened Timestamp

  predicate Absolute(p: string) {
    p != [] && p[0] == '/'
  }

  /** `posixpath.join(a, b)`: an absolute `b` replaces `a`; otherwise one `/` separates them. */
  function PathJoin(a: string, b: string): (r: string)
    ensures |b| <= |r| && r[|r| - |b|..] == b
    ensures Absolute(b) ==> r == b
  {
    if Absolute(b) then b
    else if a == [] || a[|a| - 1] == '/' then a + b
    else a + "/" + b
  }

  /** The separator `PathJoin(a, b)` puts between `a` and a relative `b`. */
  function Separator(a: string): string {
    if a == [] || a[|a| - 1] == '/' then "" else "/"
  }

  lemma JoinRelative(a: string, b: string)
    requires !Absolute(b)
    ensures PathJoin(a, b) == a + Separator(a) + b
  {
  }

  /** `'{0}-{1}-{2}.dat'.format(host, ts[:-3], group)`: the label loses its last three characters. */
  function LogName(host: string, ts: string, group: string): (n: string)
    ensures |n| == |host| + |SliceTo(ts, -3)| + |group| + 6
    ensures n[..|host|] == host && n[|n| - 4..] == ".dat"
  {
    host + "-" + SliceTo(ts, -3) + "-" + group + ".dat"
  }

  /** The group's archive directory, `os.path.join(prefix, group)`. */
  function GroupDir(prefix: string, group: string): (d: string)
    ensures |group| <= |d| && d[|d| - |group|..] == group
    ensures Absolute(group) ==> d == group
  {
    PathJoin(prefix, group)
  }

  /** The file one run of `group` at label `ts` appends to. */
  function LogPath(prefix: string, host: string, ts: string, group: string): (p: string)
    ensures var n := LogName(host, ts, group); |n| <= |p| && p[|p| - |n|..] == n
  {
    PathJoin(GroupDir(prefix, group), LogName(host, ts, group))
  }

  /** Joining one directory with names that both are relative or both absolute is one-to-one. */
  lemma JoinInjective(d: string, n1: string, n2: string)
    requires Absolute(n1) == Absolute(n2) && PathJoin(d, n1) == PathJoin(d, n2)
    ensures n1 == n2
  {
    if !Absolute(n1) {
      var p := d + Separator(d);
      assert PathJoin(d, n1) == p + n1 && PathJoin(d, n2) == p + n2;
      assert n1 == (p + n1)[|p|..];
    }
  }

  /** Where the hour label sits in a log name. */
  lemma LogNameHour(host: string, ts: string, group: string)
    ensures var n := LogName(host, ts, group); var h := SliceTo(ts, -3);
      |n| == |host| + |h| + |group| + 6 && n[|host| + 1..|host| + 1 + |h|] == h
  {
    var n := LogName(host, ts, group);
    var h := SliceTo(ts, -3);
    assert n == (host + "-") + h + ("-" + group + ".dat");
  }

  /**
   * Timestamps of the same hour map to the same file, and timestamps of
   * different hours to different files.
   */
  lemma SameHourSameFile(prefix: string, host: string, group: string, d1: DateTime, d2: DateTime)
    requires Valid(d1) && Valid(d2)
    ensures LogPath(prefix, host, Format(d1), group) == LogPath(prefix, host, Format(d2), group) <==>
      d1.year == d2.year && d1.month == d2.month && d1.day == d2.day && d1.hour == d2.hour
  {
    FormatHour(d1);
    FormatHour(d2);
    SameHourLabel(d1, d2);
    var n1 := LogName(host, Format(d1), group);
    var n2 := LogName(host, Format(d2), group);
    if LogPath(prefix, host, Format(d1), group) == LogPath(prefix, host, Format(d2), group) {
      NameAbsolute(host, Format(d1), group);
      NameAbsolute(host, Format(d2), group);
      JoinInjective(GroupDir(prefix, group), n1, n2);
      LogNameHour(host, Format(d1), group);
      LogNameHour(host, Format(d2), group);
    }
  }

  /** A relative group name `g` sits right after the prefix and its separator in the file's path. */
  lemma PathOfGroup(prefix: string, host: string, ts: string, g: string)
    requires g != [] && !Absolute(g) && !Absolute(host)
    ensures var p := LogPath(prefix, host, ts, g); var q := prefix + Separator(prefix);
      && |p| == |q| + 2 * |g| + |Separator(g)| + |host| + |SliceTo(ts, -3)| + 6
      && p[|q|..|q| + |g|] == g
  {
    var q := prefix + Separator(prefix);
    var d := GroupDir(prefix, g);
    var n := LogName(host, ts, g);
    JoinRelative(prefix, g);
    assert Separator(d) == Separator(g) by {
      assert d == q + g;
      assert d[|d| - 1] == g[|g| - 1];
    }
    NameAbsolute(host, ts, g);
    JoinRelative(d, n);
    LogNameHour(host, ts, g);
    Middle(q, g, Separator(d) + n);
    Assoc3(q + g, Separator(d), n);
  }

  /** A log name starts with the host name, or with `-` when that is empty. */
  lemma NameAbsolute(host: string, ts: string, group: string)
    ensures Absolute(LogName(host, ts, group)) == Absolute(host)
  {
    var n := LogName(host, ts, group);
    if host == [] {
      assert n[0] == '-';
    } else {
      assert n[0] == host[0];
    }
  }

  /** Different groups never share a file (group names and host name being relative). */
  lemma DistinctGroupsDistinctFiles(prefix: string, host: string, ts: string, g1: string, g2: string)
    requires g1 != [] && !Absolute(g1) && g2 != [] && !Absolute(g2) && !Absolute(host)
    requires g1 != g2
    ensures LogPath(prefix, host, ts, g1) != LogPath(prefix, host, ts, g2)
  {
    PathOfGroup(prefix, host, ts, g1);
    PathOfGroup(prefix, host, ts, g2);
  }

  /**
   * A `/` in the group name puts one into the log name too, so the file
   * `PathJoin(GroupDir(prefix, group), LogName(...))` lies in a
   * subdirectory of the group's directory that nothing creates.
   */
  lemma NestedLogName(host: string, ts: string, group: string, i: nat)
    requires i < |group| && group[i] == '/'
    ensures var n := LogName(host, ts, group); var j := |host| + |SliceTo(ts, -3)| + 2 + i;
      j < |n| && n[j] == '/'
  {
    var h := SliceTo(ts, -3);
    var n := LogName(host, ts, group);
    Middle(host + "-" + h + "-", group, ".dat");
  }

  /**
   * `heartbeat(ts, notice, others=...)`: the banner line and an empty line,
   * after an empty line only when `others` is set.
   */
  function Heartbeat(ts: string, notice: string, others: bool): (h: string)
    ensures |h| == |ts| + |notice| + 12 + (if others then 1 else 0)
    ensures h[|h| - 2..] == "\n\n"
  {
    (if others then "\n" else "") + "zzz ***" + ts + " (" + notice + ")\n" + "\n"
  }

  /** What running the command gave: its captured outputs, or the message of the exception it raised. */
  datatype Outcome = Completed(out: string, err: string) | Raised(message: string)

  const ErrorHeading: string := "Error Messages"

  /** As many dashes as `s` has characters. */
  function Underline(s: string): (r: string)
    ensures |r| == |s| && forall i :: 0 <= i < |r| ==> r[i] == '-'
  {
    seq(|s|, _ => '-')
  }

  /** The labelled section standard error is written under. */
  function ErrorSection(err: string): (e: string)
    ensures |e| == |err| + 2 * |ErrorHeading| + 5
    ensures e[|e| - |err| - 1..] == err + "\n"
  {
    "\n" + ErrorHeading + "\n" + Underline(ErrorHeading) + "\n" + "\n" + err + "\n"
  }

  /** What one run appends to its file: the banner, then what the command produced. */
  function Body(ts: string, command: string, outcome: Outcome): (b: string)
    ensures var h := Heartbeat(ts, command, false); |h| <= |b| && b[..|h|] == h
  {
    Heartbeat(ts, command, false) +
    match outcome
    case Completed(out, err) =>
      (if out != "" then out + "\n" else "") + (if err != "" then ErrorSection(err) else "")
    case Raised(message) =>
      "\n*** Something went wrong\n" + "\n" + message + "\n"
  }

  /** The banner line: the label and the command, then an empty line, with no empty line before it. */
  lemma Banner(ts: string, command: string)
    ensures Heartbeat(ts, command, false) == "zzz ***" + ts + " (" + command + ")\n\n"
    ensures Heartbeat(ts, command, true) == "\n" + Heartbeat(ts, command, false)
  {
  }

  /**
   * A body opens with the banner, then standard output with a line break
   * when it is non-empty; when standard error is empty that is all.
   */
  lemma BodyLayout(ts: string, command: string, out: string, err: string)
    ensures var b := Body(ts, command, Completed(out, err));
      var h := Heartbeat(ts, command, false);
      var o := if out != "" then |out| + 1 else 0;
      && |h| <= |b| && b[..|h|] == h && b[0] == 'z'
      && (out != "" ==> b[|h|..|h| + o] == out + "\n")
      && (err == "" <==> |b| == |h| + o)
  {
    var h := Heartbeat(ts, command, false);
    var op := if out != "" then out + "\n" else "";
    var ep := if err != "" then ErrorSection(err) else "";
    BodyParts(ts, command, out, err);
    Middle(h, op, ep);
    assert h[0] == 'z';
  }

  /** When standard error is non-empty, the error section follows the output and closes the body. */
  lemma BodyErrors(ts: string, command: string, out: string, err: string)
    requires err != ""
    ensures var b := Body(ts, command, Completed(out, err));
      var k := |Heartbeat(ts, command, false)| + (if out != "" then |out| + 1 else 0);
      k <= |b| && b[k..] == ErrorSection(err)
  {
    var h := Heartbeat(ts, command, false);
    var op := if out != "" then out + "\n" else "";
    BodyParts(ts, command, out, err);
    Middle(h, op, ErrorSection(err));
  }

  lemma BodyParts(ts: string, command: string, out: string, err: string)
    ensures Body(ts, command, Completed(out, err)) ==
      Heartbeat(ts, command, false) + (if out != "" then out + "\n" else "") + (if err != "" then ErrorSection(err) else "")
  {
  }

  /**
   * The error section: the heading on its own line after an empty one,
   * underlined by exactly as many dashes as it has characters, then an
   * empty line and standard error, which closes it.
   */
  lemma ErrorSectionLayout(err: string)
    ensures var ep := ErrorSection(err); var m := |ErrorHeading|;
      && ep[..m + 2] == "\n" + ErrorHeading + "\n"
      && ep[m + 2..2 * m + 2] == Underline(ErrorHeading)
      && ep[2 * m + 2..2 * m + 4] == "\n\n"
  {
    var a := "\n" + ErrorHeading + "\n";
    var c := "\n" + "\n" + err + "\n";
    assert ErrorSection(err) == a + Underline(ErrorHeading) + c;
    Middle(a, Underline(ErrorHeading), c);
  }

  /** When the command could not be run, the banner is followed by the failure note and the exception text. */
  lemma BodyOnFailure(ts: string, command: string, message: string)
    ensures var b := Body(ts, command, Raised(message));
      var h := Heartbeat(ts, command, false);
      && |b| == |h| + 27 + |message| + 1
      && b[..|h|] == h
      && b[|h|..|h| + 26] == "\n*** Something went wrong\n"
      && b[|b| - |message| - 1..] == message + "\n"
  {
    var b := Body(ts, command, Raised(message));
    var h := Heartbeat(ts, command, false);
    var tail := "\n*** Something went wrong\n" + "\n" + message + "\n";
    assert b == h + tail;
    assert b[|h|..] == tail;
  }
}
