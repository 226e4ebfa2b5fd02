/**
 * The inventory file: one `group command` pair per line, `#` starts a
 * comment, and the last line naming a group decides its command.
 */
module Inventory {
  import opened Wrappers
  import opened PyText

  datatype Entry = Entry(group: string, command: string)

  /** `map(str.strip, line.split('#', 1)[0].split(None, 1))`: at most two tokens, none with `#`. */
  function Tokens(line: string): (tokens: seq<string>)
    ensures |tokens| <= 2
    ensures forall i :: 0 <= i < |tokens| ==> '#' !in tokens[i]
  {
    var parts := SplitOnce(BeforeFirst(line, '#'));
    seq(|parts|, i requires 0 <= i < |parts| => Strip(parts[i]))
  }

  /** The entry a line contributes: only a line that yields exactly two tokens contributes one. */
  function ParseLine(line: string): (e: Option<Entry>)
    ensures e.Some? <==> |Tokens(line)| == 2
    ensures e.Some? ==> e.value.group == Tokens(line)[0] && e.value.command == Tokens(line)[1]
  {
    var tokens := Tokens(line);
    if |tokens| == 2 then Some(Entry(tokens[0], Join("; ", tokens[1..]))) else None
  }

  /** A group name is a non-empty run of non-whitespace characters. */
  predicate IsGroup(g: string) {
    g != [] && NoSpace(g)
  }

  /** A command is non-empty and neither starts nor ends with whitespace. */
  predicate IsCommand(c: string) {
    c != [] && !IsSpace(c[0]) && !IsSpace(c[|c| - 1])
  }

  /** `s` is whitespace, then `g`, then at least one whitespace character, then `c`, then whitespace. */
  ghost predicate Shaped(s: string, g: string, c: string) {
    exists w1, w2, w3 ::
      AllSpace(w1) && AllSpace(w2) && AllSpace(w3) && w2 != [] && s == w1 + g + w2 + c + w3
  }

  /**
   * A line yields the entry (g, c) exactly when the text before its first
   * `#` is a group token and a command separated by whitespace, with only
   * whitespace around them.
   */
  lemma ParseLineExactly(line: string, g: string, c: string)
    ensures ParseLine(line) == Some(Entry(g, c)) <==>
      IsGroup(g) && IsCommand(c) && Shaped(BeforeFirst(line, '#'), g, c)
    ensures ParseLine(line) == Some(Entry(g, c)) ==> '#' !in g && '#' !in c
  {
    if ParseLine(line) == Some(Entry(g, c)) {
      ParsedShape(line);
    }
    if IsGroup(g) && IsCommand(c) && Shaped(BeforeFirst(line, '#'), g, c) {
      ShapedParses(line, g, c);
    }
  }

  /** What a line that yields an entry contributes: the two stripped parts of `split(None, 1)`. */
  lemma ParseLineParts(line: string)
    ensures var p := SplitOnce(BeforeFirst(line, '#'));
      ParseLine(line) == if |p| == 2 then Some(Entry(Strip(p[0]), Strip(p[1]))) else None
  {
  }

  lemma ParsedShape(line: string)
    requires ParseLine(line).Some?
    ensures var e := ParseLine(line).value;
      && IsGroup(e.group) && IsCommand(e.command) && Shaped(BeforeFirst(line, '#'), e.group, e.command)
      && '#' !in e.group && '#' !in e.command
  {
    var s := BeforeFirst(line, '#');
    ParseLineParts(line);
    TwoPartsShaped(s);
    var e := ParseLine(line).value;
    assert '#' !in e.group && '#' !in e.command by {
      var w1, w2, w3 :| AllSpace(w1) && AllSpace(w2) && AllSpace(w3) && w2 != [] && s == w1 + e.group + w2 + e.command + w3;
      assert forall x :: x in e.group ==> x in s;
      assert forall x :: x in e.command ==> x in s;
    }
  }

  /** The text before `#` of a line that splits in two is shaped as a group and a command. */
  lemma TwoPartsShaped(s: string)
    requires |SplitOnce(s)| == 2
    ensures var p := SplitOnce(s);
      IsGroup(Strip(p[0])) && IsCommand(Strip(p[1])) && Shaped(s, Strip(p[0]), Strip(p[1]))
  {
    var p := SplitOnce(s);
    var w1, w2 := SplitOnceTwo(s);
    StripAround([], p[0], []);
    assert [] + p[0] + [] == p[0];
    ShapeOf(s, w1, p[0], w2, p[1]);
  }

  lemma ShapeOf(s: string, w1: string, g: string, w2: string, rest: string)
    requires s == w1 + g + w2 + rest && AllSpace(w1) && AllSpace(w2) && w2 != [] && IsGroup(g)
    requires rest != [] && !IsSpace(rest[0])
    ensures IsCommand(Strip(rest)) && Shaped(s, g, Strip(rest))
  {
    var w3 := StripFromNonSpace(rest);
    var c := Strip(rest);
    assert w3 == rest[|c|..];
    Regroup(s, w1, g, w2, rest, c);
    Assoc(w1, g, w2, c);
    assert s == w1 + g + w2 + c + w3;
  }

  lemma ShapedParses(line: string, g: string, c: string)
    requires IsGroup(g) && IsCommand(c) && Shaped(BeforeFirst(line, '#'), g, c)
    ensures ParseLine(line) == Some(Entry(g, c))
  {
    ParseLineParts(line);
    ShapedSplits(BeforeFirst(line, '#'), g, c);
  }

  /** A group and a command surrounded and separated by whitespace split back into that group and command. */
  lemma ShapedSplits(s: string, g: string, c: string)
    requires IsGroup(g) && IsCommand(c) && Shaped(s, g, c)
    ensures var p := SplitOnce(s); |p| == 2 && Strip(p[0]) == g && Strip(p[1]) == c
  {
    var w1, w2, w3 :| AllSpace(w1) && AllSpace(w2) && AllSpace(w3) && w2 != [] && s == w1 + g + w2 + c + w3;
    var x := c + w3;
    Assoc3(w1 + g + w2, c, w3);
    SplitOnceOf(w1, g, w2, x);
    StripAround([], g, []);
    assert [] + g + [] == g;
    StripAround([], c, w3);
    assert [] + c + w3 == x;
  }

  /** Blank lines, comment-only lines and single-token lines yield nothing, and only they. */
  lemma IgnoredLines(line: string)
    ensures ParseLine(line) == None <==> NoSpace(Strip(BeforeFirst(line, '#')))
  {
    SplitOnceShort(BeforeFirst(line, '#'));
  }

  /** The entries the lines yield, in order (`None` for a line that yields nothing). */
  function Entries(lines: seq<string>): (es: seq<Option<Entry>>)
    ensures |es| == |lines|
  {
    seq(|lines|, i requires 0 <= i < |lines| => ParseLine(lines[i]))
  }

  /** The map built from entries in order: each entry overwrites any earlier one for its group. */
  function Collect(es: seq<Option<Entry>>): map<string, string> {
    if es == [] then map[]
    else
      var m := Collect(es[..|es| - 1]);
      match es[|es| - 1]
      case Some(e) => m[e.group := e.command]
      case None => m
  }

  /** The inventory after reading `lines` in order. */
  function InventoryOf(lines: seq<string>): map<string, string> {
    Collect(Entries(lines))
  }

  /** The inventory loop of `main`: reads the lines in order and stores each valid entry. */
  method ReadInventory(lines: seq<string>) returns (inventory: map<string, string>)
    ensures inventory == InventoryOf(lines)
  {
    inventory := map[];
    for i := 0 to |lines|
      invariant inventory == Collect(Entries(lines)[..i])
    {
      assert Entries(lines)[..i + 1][..i] == Entries(lines)[..i];
      var tokens := Tokens(lines[i]);
      if |tokens| == 2 {
        var group := tokens[0];
        var action := Join("; ", tokens[1..]);
        inventory := inventory[group := action];
      }
    }
    assert Entries(lines)[..|lines|] == Entries(lines);
  }

  /** `e` is an entry for group `g`. */
  predicate Names(e: Option<Entry>, g: string) {
    e.Some? && e.value.group == g
  }

  lemma {:induction false} CollectKeys(es: seq<Option<Entry>>, g: string)
    ensures g in Collect(es) <==> exists i :: 0 <= i < |es| && Names(es[i], g)
  {
    if es != [] {
      var init := es[..|es| - 1];
      CollectKeys(init, g);
      if exists i :: 0 <= i < |init| && Names(init[i], g) {
        var i :| 0 <= i < |init| && Names(init[i], g);
        assert es[i] == init[i];
      }
      if exists i :: 0 <= i < |es| && Names(es[i], g) {
        var i :| 0 <= i < |es| && Names(es[i], g);
        if i < |init| {
          assert init[i] == es[i];
        }
      }
    }
  }

  lemma {:induction false} CollectLastWins(es: seq<Option<Entry>>, i: nat, g: string, c: string)
    requires i < |es| && es[i] == Some(Entry(g, c))
    requires forall j :: i < j < |es| ==> !Names(es[j], g)
    ensures g in Collect(es) && Collect(es)[g] == c
  {
    var init := es[..|es| - 1];
    if i < |es| - 1 {
      forall j | i < j < |init| ensures !Names(init[j], g) {
        assert init[j] == es[j];
      }
      assert init[i] == es[i];
      CollectLastWins(init, i, g, c);
    }
  }

  /** A group is in the inventory exactly when some line yields an entry for it. */
  lemma InventoryKeys(lines: seq<string>, g: string)
    ensures g in InventoryOf(lines) <==> exists i :: 0 <= i < |lines| && Names(ParseLine(lines[i]), g)
  {
    var es := Entries(lines);
    CollectKeys(es, g);
    assert forall i :: 0 <= i < |lines| ==> es[i] == ParseLine(lines[i]);
  }

  /**
   * When several lines name the same group, the inventory holds the command
   * of the last of them.
   */
  lemma LastLineWins(lines: seq<string>, i: nat, g: string, c: string)
    requires i < |lines| && ParseLine(lines[i]) == Some(Entry(g, c))
    requires forall j :: i < j < |lines| ==> !Names(ParseLine(lines[j]), g)
    ensures g in InventoryOf(lines) && InventoryOf(lines)[g] == c
  {
    var es := Entries(lines);
    assert forall j :: 0 <= j < |lines| ==> es[j] == ParseLine(lines[j]);
    CollectLastWins(es, i, g, c);
  }

  /** Reading one more line changes at most the entry of the group that line names. */
  lemma OtherGroupsUnaffected(lines: seq<string>, line: string, h: string)
    requires !Names(ParseLine(line), h)
    ensures h in InventoryOf(lines + [line]) <==> h in InventoryOf(lines)
    ensures h in InventoryOf(lines) ==> InventoryOf(lines + [line])[h] == InventoryOf(lines)[h]
  {
    var es := Entries(lines + [line]);
    assert es[..|lines|] == Entries(lines);
    assert es[|lines|] == ParseLine(line);
  }
}
