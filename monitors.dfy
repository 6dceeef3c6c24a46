/**
 * The pure part of the monitor searcher: monitor identifiers built from the
 * listing's rows, the snapshot file's text format (written by
 * `save_monitors`, read back by `compare_monitors`), the difference between
 * two listings, and the text of the notification.
 */
module Monitors {
  import opened Wrappers
  import opened Text

  /** One record of the listing's `data` array. */
  datatype Row = Row(manufacturer: string, model: string)

  /** `f"{row['manufacturer']} {row['model']}"`. */
  function Identifier(row: Row): (id: string)
    ensures |id| == |row.manufacturer| + 1 + |row.model|
    ensures id[..|row.manufacturer|] == row.manufacturer
    ensures id[|row.manufacturer|] == ' '
    ensures id[|row.manufacturer| + 1..] == row.model
  {
    row.manufacturer + " " + row.model
  }

  /** The identifiers of `get_monitors`: one per row, in row order. */
  function Identifiers(rows: seq<Row>): (ids: seq<string>)
    ensures |ids| == |rows|
    ensures forall i :: 0 <= i < |rows| ==> ids[i] == rows[i].manufacturer + " " + rows[i].model
  {
    if rows == [] then [] else [Identifier(rows[0])] + Identifiers(rows[1..])
  }

  /** `[x.strip() for x in xs]`. */
  function StripAll(xs: seq<string>): (ys: seq<string>)
    ensures |ys| == |xs|
    ensures forall i :: 0 <= i < |xs| ==> ys[i] == Strip(xs[i])
    ensures forall i :: 0 <= i < |ys| ==> IsStripped(ys[i])
  {
    if xs == [] then [] else [Strip(xs[0])] + StripAll(xs[1..])
  }

  /** The listing as `main` compares and saves it: the identifiers, each stripped. */
  function CurrentMonitors(rows: seq<Row>): (ids: seq<string>)
    ensures |ids| == |rows|
    ensures forall i :: 0 <= i < |rows| ==>
      IsStripped(ids[i]) && ids[i] == Strip(rows[i].manufacturer + " " + rows[i].model)
  {
    StripAll(Identifiers(rows))
  }

  /**
   * The previous listing, as `compare_monitors` reads it from the snapshot
   * file (`None` when the file does not exist): the file's lines, stripped.
   */
  function Load(file: Option<string>): (previous: seq<string>)
    ensures file.None? ==> previous == []
    ensures file.Some? ==> |previous| == |ReadLines(file.value)|
    ensures file.Some? ==> forall i :: 0 <= i < |previous| ==> previous[i] == Strip(ReadLines(file.value)[i])
    ensures forall i :: 0 <= i < |previous| ==> IsStripped(previous[i]) && '\n' !in previous[i]
  {
    match file
    case None => []
    case Some(text) =>
      var lines := ReadLines(text);
      forall i | 0 <= i < |lines| ensures '\n' !in Strip(lines[i]) {
        StripLineNoBreak(lines[i], i == |lines| - 1);
      }
      StripAll(lines)
  }

  /** What `save_monitors` writes: the identifiers joined by newlines, no final newline. */
  function SaveText(monitors: seq<string>): (text: string)
    ensures monitors == [] ==> text == ""
    ensures monitors != [] && (forall i :: 0 <= i < |monitors| ==> '\n' !in monitors[i]) ==>
      Split('\n', text) == monitors
  {
    assert monitors != [] && (forall i :: 0 <= i < |monitors| ==> '\n' !in monitors[i]) ==>
      Split('\n', Join("\n", monitors)) == monitors
    by {
      if monitors != [] && (forall i :: 0 <= i < |monitors| ==> '\n' !in monitors[i]) {
        SplitJoin('\n', monitors);
      }
    }
    Join("\n", monitors)
  }

  /** An entry that survives the file format: one line, already stripped. */
  predicate LineSafe(e: string) {
    '\n' !in e && '\r' !in e && IsStripped(e)
  }

  /** The listing minus its last entry when that entry is empty. */
  function DropEmptyLast(ids: seq<string>): seq<string> {
    if ids != [] && ids[|ids| - 1] == "" then ids[..|ids| - 1] else ids
  }

  /**
   * Saving and then loading gives back the saved listing, except that an
   * empty last entry is lost: `["a", ""]` is written as `"a\n"`, which reads
   * back as `["a"]`.
   */
  lemma {:induction false} SnapshotRoundTrip(ids: seq<string>)
    requires forall i :: 0 <= i < |ids| ==> LineSafe(ids[i])
    ensures Load(Some(SaveText(ids))) == DropEmptyLast(ids)
  {
    if |ids| == 1 {
      LoadSingle(ids[0]);
    } else if |ids| > 1 {
      var rest := ids[1..];
      assert SaveText(ids) == ids[0] + "\n" + SaveText(rest);
      LoadLine(ids[0], SaveText(rest));
      SnapshotRoundTrip(rest);
      DropEmptyLastCons(ids[0], rest);
      assert ids == [ids[0]] + rest;
    }
  }

  /** Dropping an empty last entry does not touch the first one. */
  lemma DropEmptyLastCons(x: string, rest: seq<string>)
    requires rest != []
    ensures DropEmptyLast([x] + rest) == [x] + DropEmptyLast(rest)
  {
    var ids := [x] + rest;
    assert ids[|ids| - 1] == rest[|rest| - 1];
    assert ids[..|ids| - 1] == [x] + rest[..|rest| - 1];
  }

  /** A single stripped one-line entry loads as itself, or as nothing when empty. */
  lemma LoadSingle(x: string)
    requires LineSafe(x)
    ensures Load(Some(x)) == if x == "" then [] else [x]
  {
    ReadLinesSingle(x);
    StripFixpoint(x);
  }

  /** A stripped one-line entry and its newline load as that entry, followed by the rest. */
  lemma LoadLine(x: string, rest: string)
    requires LineSafe(x)
    ensures Load(Some(x + "\n" + rest)) == [x] + Load(Some(rest))
  {
    ReadLinesCons(x, rest);
    StripLineBreak(x);
    var lines := ReadLines(rest);
    assert StripAll([x + "\n"] + lines) == [x] + StripAll(lines);
  }

  /** A listing that ends in a non-empty entry round-trips exactly; so does the empty listing. */
  lemma SnapshotRoundTripExact(ids: seq<string>)
    requires forall i :: 0 <= i < |ids| ==> LineSafe(ids[i])
    requires ids == [] || ids[|ids| - 1] != ""
    ensures Load(Some(SaveText(ids))) == ids
  {
    SnapshotRoundTrip(ids);
  }

  /** `set(newmons) - set(oldmons)`. */
  function Difference(newmons: seq<string>, oldmons: seq<string>): (diff: set<string>)
    ensures forall x :: x in diff <==> x in newmons && x !in oldmons
    ensures oldmons == [] ==> diff == set x | x in newmons
  {
    (set x | x in newmons) - (set x | x in oldmons)
  }

  /**
   * Comparing a listing with its own saved snapshot finds nothing new,
   * except the empty identifier when it was the last entry only.
   */
  lemma RerunDifference(ids: seq<string>)
    requires forall i :: 0 <= i < |ids| ==> LineSafe(ids[i])
    ensures Difference(ids, Load(Some(SaveText(ids)))) ==
      if ids != [] && ids[|ids| - 1] == "" && "" !in ids[..|ids| - 1] then {""} else {}
  {
    SnapshotRoundTrip(ids);
    if ids != [] && ids[|ids| - 1] == "" {
      assert ids == ids[..|ids| - 1] + [""];
    }
  }

  /** A run that finds the listing it saved last time finds nothing new. */
  lemma QuietRerun(ids: seq<string>)
    requires forall i :: 0 <= i < |ids| ==> LineSafe(ids[i])
    requires ids == [] || ids[|ids| - 1] != ""
    ensures Difference(ids, Load(Some(SaveText(ids)))) == {}
  {
    SnapshotRoundTripExact(ids);
  }

  /** A listing that adds one monitor to the saved one reports exactly that monitor as new. */
  lemma AddedMonitorIsNew(saved: seq<string>, added: string)
    requires forall i :: 0 <= i < |saved| ==> LineSafe(saved[i])
    requires saved == [] || saved[|saved| - 1] != ""
    requires added !in saved
    ensures Difference(saved + [added], Load(Some(SaveText(saved)))) == {added}
  {
    SnapshotRoundTripExact(saved);
  }

  const Title := "Found new G-Sync monitors:"
  const Header := Title + "\n\n"

  /**
   * The body `send_email` builds from the new identifiers, in the order the
   * set yields them: the header line, an empty line, then one line per
   * identifier.
   */
  function Body(order: seq<string>): (body: string)
    ensures |Header| <= |body| && body[..|Header|] == Header
    ensures order != [] && (forall i :: 0 <= i < |order| ==> '\n' !in order[i]) ==>
      Split('\n', body) == [Title, ""] + order
  {
    assert order != [] && (forall i :: 0 <= i < |order| ==> '\n' !in order[i]) ==>
      Split('\n', Header + Join("\n", order)) == [Title, ""] + order
    by {
      if order != [] && (forall i :: 0 <= i < |order| ==> '\n' !in order[i]) {
        TitleThenLines(Title, order);
      }
    }
    Header + Join("\n", order)
  }

  /** A title line, an empty line, then joined lines, split back into lines. */
  lemma TitleThenLines(title: string, order: seq<string>)
    requires '\n' !in title
    requires order != []
    requires forall i :: 0 <= i < |order| ==> '\n' !in order[i]
    ensures Split('\n', title + "\n\n" + Join("\n", order)) == [title, ""] + order
  {
    var rest := Join("\n", order);
    var lines := [title, ""] + order;
    assert lines[1..] == [""] + order && lines[1..][1..] == order;
    assert Join("\n", lines) == title + "\n" + ("" + "\n" + rest);
    assert title + "\n" + ("" + "\n" + rest) == title + "\n\n" + rest;
    SplitJoin('\n', lines);
  }

  /** `order` lists every element of `s` exactly once: one way a Python set iterates. */
  ghost predicate IsEnumeration(order: seq<string>, s: set<string>) {
    && (forall x :: x in order <==> x in s)
    && (forall i, j :: 0 <= i < j < |order| ==> order[i] != order[j])
  }

  /** Every new identifier, and nothing else, is a line of the body after the header's two. */
  lemma BodyLines(order: seq<string>, diff: set<string>)
    requires IsEnumeration(order, diff) && diff != {}
    requires forall i :: 0 <= i < |order| ==> '\n' !in order[i]
    ensures forall x :: x in diff <==> x in Split('\n', Body(order))[2..]
  {
    assert order != [] by {
      var x :| x in diff;
      assert x in order;
    }
    assert Split('\n', Body(order))[2..] == order;
  }

  /** Iterating over a set: each element once, in an order the set does not fix. */
  method Enumerate(s: set<string>) returns (order: seq<string>)
    ensures IsEnumeration(order, s)
    ensures |order| == |s|
  {
    order := [];
    var rest := s;
    while rest != {}
      invariant rest <= s
      invariant forall x :: x in order <==> x in s - rest
      invariant forall i, j :: 0 <= i < j < |order| ==> order[i] != order[j]
      invariant |order| + |rest| == |s|
      decreases rest
    {
      var x :| x in rest;
      order := order + [x];
      rest := rest - {x};
    }
  }
}
