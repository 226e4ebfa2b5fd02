/**
 * What one cycle reports on standard error once every worker has
 * finished: the cycle label, then, for each group whose command wrote to
 * standard error, in ascending order of the `(group, err)` pairs, the
 * group, its command and the indented error lines.
 */
module Dispatch {
  import opened PyText

  /** A worker's result: the group and what its command wrote to standard error. */
  type Result = (string, string)

  /** Python 2 tuple order on results: by group, then by error text. */
  predicate Precedes(a: Result, b: Result)
  {
    Below(a.0, b.0) || (a.0 == b.0 && Below(a.1, b.1))
  }

  predicate NotAfter(a: Result, b: Result) {
    a == b || Precedes(a, b)
  }

  predicate Sorted(rs: seq<Result>) {
    forall i, j :: 0 <= i < j < |rs| ==> NotAfter(rs[i], rs[j])
  }

  lemma PrecedesTotal(a: Result, b: Result)
    ensures a == b || Precedes(a, b) || Precedes(b, a)
  {
    BelowTotal(a.0, b.0);
    BelowTotal(a.1, b.1);
  }

  lemma PrecedesAsymmetric(a: Result, b: Result)
    requires Precedes(a, b)
    ensures !Precedes(b, a) && a != b
  {
    if Below(a.0, b.0) {
      BelowAsymmetric(a.0, b.0);
      BelowIrreflexive(a.0);
    } else {
      BelowAsymmetric(a.1, b.1);
      BelowIrreflexive(a.1);
    }
  }

  lemma NotAfterTransitive(a: Result, b: Result, c: Result)
    requires NotAfter(a, b) && NotAfter(b, c)
    ensures NotAfter(a, c)
  {
    if a != b && b != c {
      if Below(a.0, b.0) && Below(b.0, c.0) {
        BelowTransitive(a.0, b.0, c.0);
      } else if a.0 == b.0 && b.0 == c.0 {
        BelowTransitive(a.1, b.1, c.1);
      }
    }
  }

  lemma NotAfterAntisymmetric(a: Result, b: Result)
    requires NotAfter(a, b) && NotAfter(b, a)
    ensures a == b
  {
    if a != b {
      PrecedesAsymmetric(a, b);
    }
  }

  /** Places `r` into an ordered sequence, keeping it ordered. */
  function Insert(r: Result, rs: seq<Result>): (out: seq<Result>)
    requires Sorted(rs)
    ensures Sorted(out) && multiset(out) == multiset(rs) + multiset{r}
    ensures forall x :: x in out ==> x == r || x in rs
  {
    if rs == [] then [r]
    else if NotAfter(r, rs[0]) then
      InsertFront(r, rs);
      [r] + rs
    else
      assert rs == [rs[0]] + rs[1..];
      PrecedesTotal(r, rs[0]);
      var tail := Insert(r, rs[1..]);
      assert forall x :: x in tail ==> NotAfter(rs[0], x);
      [rs[0]] + tail
  }

  lemma InsertFront(r: Result, rs: seq<Result>)
    requires Sorted(rs) && rs != [] && NotAfter(r, rs[0])
    ensures Sorted([r] + rs)
  {
    forall j | 0 <= j < |rs|
      ensures NotAfter(r, rs[j])
    {
      if j > 0 {
        NotAfterTransitive(r, rs[0], rs[j]);
      }
    }
  }

  /** `sorted(results)`: the results in ascending order, none lost or added. */
  function Sort(rs: seq<Result>): (out: seq<Result>)
    ensures Sorted(out) && multiset(out) == multiset(rs)
  {
    if rs == [] then []
    else
      assert rs == [rs[0]] + rs[1..];
      Insert(rs[0], Sort(rs[1..]))
  }

  /** Two ordered arrangements of the same results start with the same result. */
  lemma SortedHeads(a: seq<Result>, b: seq<Result>)
    requires Sorted(a) && Sorted(b) && multiset(a) == multiset(b) && a != []
    ensures b != [] && a[0] == b[0]
  {
    assert a[0] in multiset(b);
    assert b != [] && b[0] in multiset(a);
    assert NotAfter(a[0], b[0]) by {
      var j :| 0 <= j < |a| && a[j] == b[0];
    }
    assert NotAfter(b[0], a[0]) by {
      var j :| 0 <= j < |b| && b[j] == a[0];
    }
    NotAfterAntisymmetric(a[0], b[0]);
  }

  /** Dropping the first result keeps an arrangement ordered and removes one copy of that result. */
  lemma SortedTail(a: seq<Result>)
    requires Sorted(a) && a != []
    ensures Sorted(a[1..]) && multiset(a[1..]) == multiset(a) - multiset{a[0]}
  {
    assert a == [a[0]] + a[1..];
  }

  /** There is only one ordered arrangement of a collection of results. */
  lemma {:induction false} SortedUnique(a: seq<Result>, b: seq<Result>)
    requires Sorted(a) && Sorted(b) && multiset(a) == multiset(b)
    ensures a == b
    decreases |a|
  {
    if a != [] {
      SortedHeads(a, b);
      SortedTail(a);
      SortedTail(b);
      SortedUnique(a[1..], b[1..]);
      assert a == [a[0]] + a[1..] && b == [b[0]] + b[1..];
    } else {
      assert |b| == |multiset(b)|;
    }
  }

  /** Every group that wrote to standard error is in the inventory (the report looks its command up). */
  predicate Known(inventory: map<string, string>, rs: seq<Result>) {
    forall r :: r in rs && r.1 != "" ==> r.0 in inventory
  }

  /** Each line printed with the four-space indent. */
  function Indent(lines: seq<string>): (r: seq<string>)
    ensures |r| == |lines|
    ensures forall i :: 0 <= i < |lines| ==> r[i] == "    " + lines[i]
  {
    seq(|lines|, i requires 0 <= i < |lines| => "    " + lines[i])
  }

  /** What one failing group prints: its name, its command, then each line of its error text. */
  function Block(command: string, r: Result): (b: seq<string>)
    ensures |b| == 2 + |SplitLines(r.1)| && b[0] == "*** " + r.0 && b[1] == "    " + command
    ensures forall i :: 2 <= i < |b| ==> |b[i]| >= 4 && b[i][..4] == "    "
  {
    ["*** " + r.0, "    " + command] + Indent(SplitLines(r.1))
  }

  /** The report over results in the given order, skipping those with an empty error text. */
  function Report(inventory: map<string, string>, rs: seq<Result>): (lines: seq<string>)
    requires Known(inventory, rs)
    ensures |lines| >= 2 * |Failing(rs)|
    ensures lines == [] <==> Failing(rs) == []
  {
    if rs == [] then []
    else
      assert rs[0] in rs && forall r :: r in rs[1..] ==> r in rs;
      (if rs[0].1 != "" then Block(inventory[rs[0].0], rs[0]) else []) + Report(inventory, rs[1..])
  }

  /** The lines `do_one_event_loop` prints for the collected results, whatever order they arrived in. */
  function ErrorReport(inventory: map<string, string>, results: seq<Result>): (lines: seq<string>)
    requires Known(inventory, results)
    ensures lines == [] <==> forall r :: r in results ==> r.1 == ""
  {
    var sorted := Sort(results);
    assert forall r :: r in sorted <==> r in results by {
      assert forall r :: r in sorted <==> r in multiset(sorted);
    }
    QuietWhenNoneFail(sorted);
    Report(inventory, sorted)
  }

  /** No group is failing exactly when every result has an empty error text. */
  lemma {:induction false} QuietWhenNoneFail(rs: seq<Result>)
    ensures Failing(rs) == [] <==> forall r :: r in rs ==> r.1 == ""
    decreases |rs|
  {
    if rs != [] {
      QuietWhenNoneFail(rs[1..]);
      assert forall r :: r in rs <==> r == rs[0] || r in rs[1..];
    }
  }

  /** The report depends only on which results arrived, not on the order they completed in. */
  lemma ReportIndependentOfOrder(inventory: map<string, string>, r1: seq<Result>, r2: seq<Result>)
    requires Known(inventory, r1) && Known(inventory, r2) && multiset(r1) == multiset(r2)
    ensures ErrorReport(inventory, r1) == ErrorReport(inventory, r2)
  {
    SortedUnique(Sort(r1), Sort(r2));
  }

  predicate IsHeader(line: string) {
    |line| >= 4 && line[..4] == "*** "
  }

  /** The group names of the header lines of a report, in order. */
  function Headers(lines: seq<string>): seq<string> {
    if lines == [] then []
    else (if IsHeader(lines[0]) then [lines[0][4..]] else []) + Headers(lines[1..])
  }

  /** The groups of the results with a non-empty error text, in order. */
  function Failing(rs: seq<Result>): seq<string> {
    if rs == [] then []
    else (if rs[0].1 != "" then [rs[0].0] else []) + Failing(rs[1..])
  }

  lemma {:induction false} HeadersAppend(a: seq<string>, b: seq<string>)
    ensures Headers(a + b) == Headers(a) + Headers(b)
    decreases |a|
  {
    if a != [] {
      assert (a + b)[0] == a[0] && (a + b)[1..] == a[1..] + b;
      HeadersAppend(a[1..], b);
      var h: seq<string> := if IsHeader(a[0]) then [a[0][4..]] else [];
      Assoc3(h, Headers(a[1..]), Headers(b));
    } else {
      assert a + b == b;
    }
  }

  lemma {:induction false} HeadersOfIndented(lines: seq<string>)
    ensures Headers(Indent(lines)) == []
    decreases |lines|
  {
    if lines != [] {
      assert Indent(lines)[0][0] == ' ';
      assert Indent(lines)[1..] == Indent(lines[1..]);
      HeadersOfIndented(lines[1..]);
    }
  }

  /** A block has exactly one header line, naming its group. */
  lemma BlockHeader(command: string, r: Result)
    ensures Headers(Block(command, r)) == [r.0]
  {
    var first: seq<string> := ["*** " + r.0];
    var second: seq<string> := ["    " + command];
    assert Block(command, r) == first + (second + Indent(SplitLines(r.1)));
    HeadersAppend(first, second + Indent(SplitLines(r.1)));
    HeadersAppend(second, Indent(SplitLines(r.1)));
    HeadersOfIndented(SplitLines(r.1));
    assert ("*** " + r.0)[4..] == r.0;
    assert ("    " + command)[0] == ' ';
  }

  /** The header lines of a report name exactly the failing groups, in the order of the results. */
  lemma {:induction false} ReportHeaders(inventory: map<string, string>, rs: seq<Result>)
    requires Known(inventory, rs)
    ensures Headers(Report(inventory, rs)) == Failing(rs)
    decreases |rs|
  {
    if rs != [] {
      assert rs[0] in rs && forall r :: r in rs[1..] ==> r in rs;
      ReportHeaders(inventory, rs[1..]);
      var head := if rs[0].1 != "" then Block(inventory[rs[0].0], rs[0]) else [];
      HeadersAppend(head, Report(inventory, rs[1..]));
      if rs[0].1 != "" {
        BlockHeader(inventory[rs[0].0], rs[0]);
      }
    }
  }

  /** A group is failing in a sequence of results exactly when some result names it with an error text. */
  lemma {:induction false} FailingMembers(rs: seq<Result>, g: string)
    ensures g in Failing(rs) <==> exists r :: r in rs && r.0 == g && r.1 != ""
    decreases |rs|
  {
    if rs != [] {
      FailingMembers(rs[1..], g);
      assert forall r :: r in rs <==> r == rs[0] || r in rs[1..];
    }
  }

  /** The failing groups of ordered results come in ascending order of name. */
  lemma {:induction false} FailingAscending(rs: seq<Result>)
    requires Sorted(rs)
    ensures var gs := Failing(rs); forall i, j :: 0 <= i < j < |gs| ==> gs[i] == gs[j] || Below(gs[i], gs[j])
    decreases |rs|
  {
    if rs != [] {
      FailingAscending(rs[1..]);
      var gs := Failing(rs);
      var rest := Failing(rs[1..]);
      if rs[0].1 != "" {
        forall j | 0 < j < |gs|
          ensures gs[0] == gs[j] || Below(gs[0], gs[j])
        {
          assert gs[j] == rest[j - 1];
          FailingMembers(rs[1..], rest[j - 1]);
          var r :| r in rs[1..] && r.0 == rest[j - 1] && r.1 != "";
          var k :| 0 <= k < |rs[1..]| && rs[1..][k] == r;
          assert NotAfter(rs[0], rs[k + 1]);
          assert gs[0] == rs[0].0;
        }
      }
    }
  }

  /**
   * The report names, in ascending order, exactly the groups that wrote
   * to standard error; groups with an empty error text are skipped.
   */
  lemma ErrorReportGroups(inventory: map<string, string>, results: seq<Result>, g: string)
    requires Known(inventory, results)
    ensures var gs := Headers(ErrorReport(inventory, results));
      && (forall i, j :: 0 <= i < j < |gs| ==> gs[i] == gs[j] || Below(gs[i], gs[j]))
      && (g in gs <==> exists r :: r in results && r.0 == g && r.1 != "")
  {
    var sorted := Sort(results);
    assert forall r :: r in sorted <==> r in results by {
      assert forall r :: r in sorted <==> r in multiset(sorted);
    }
    ReportHeaders(inventory, sorted);
    FailingAscending(sorted);
    FailingMembers(sorted, g);
  }

  /**
   * A failing group's block: the header, the command indented, then the
   * error text's lines indented; printing those lines without the indent
   * gives the error text back with its line breaks written as "\n" (and a
   * final newline added if it lacked one).
   */
  lemma BlockLayout(command: string, r: Result)
    ensures var b := Block(command, r);
      var n := Newlines(r.1);
      Terminated(Unindent(b[2..])) == if n == [] || n[|n| - 1] == '\n' then n else n + "\n"
  {
    var b := Block(command, r);
    var lines := SplitLines(r.1);
    assert b[2..] == Indent(lines);
    assert Unindent(Indent(lines)) == lines;
    SplitLinesRoundTrip(r.1);
  }

  /** Each line with its four-character indent removed: the inverse of `Indent`, used to state `BlockLayout`. */
  function Unindent(lines: seq<string>): (r: seq<string>)
    requires forall i :: 0 <= i < |lines| ==> |lines[i]| >= 4
    ensures |r| == |lines| && forall i :: 0 <= i < |lines| ==> r[i] == lines[i][4..]
  {
    seq(|lines|, i requires 0 <= i < |lines| => lines[i][4..])
  }

  /** What `do_one_event_loop` produces: its lines on standard error, and its return value read as "quit". */
  datatype Cycle = Cycle(stderr: seq<string>, quit: bool)

  /**
   * One cycle's report: the cycle label, then the error report. The
   * function ends without a `return` value, so what the loop reads as its
   * request to quit is always `None`, which is false.
   */
  function DoOneEventLoop(ts: string, inventory: map<string, string>, results: seq<Result>): (c: Cycle)
    requires Known(inventory, results)
    ensures !c.quit
    ensures |c.stderr| >= 1 && c.stderr[0] == ts && c.stderr[1..] == ErrorReport(inventory, results)
  {
    Cycle([ts] + ErrorReport(inventory, results), false)
  }
}
