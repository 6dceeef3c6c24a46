/**
 * One run of the monitor searcher (`main`) against the two things that
 * outlive it: the snapshot file and the notifications that were sent.
 */
module Orchestrator {
  import opened Wrappers
  import opened Text
  import opened Endpoint
  import opened Monitors

  /** How a run ends: it stops when the endpoint cannot be found, or completes with its difference. */
  datatype RunOutcome = Aborted(cause: Located) | Completed(diff: set<string>)

  /** The stripped listing a run fetches from the endpoint it located. */
  function Listing(scripts: seq<string>, fetch: string -> seq<Row>): seq<string>
    requires Locate(scripts).Found?
  {
    CurrentMonitors(fetch(Locate(scripts).url))
  }

  class Searcher {
    /** The contents of the snapshot file, `None` while it does not exist. */
    var saveFile: Option<string>
    /** The bodies of the notifications sent so far, oldest first. */
    var outbox: seq<string>

    constructor (saveFile: Option<string>)
      ensures this.saveFile == saveFile && outbox == []
    {
      this.saveFile := saveFile;
      outbox := [];
    }

    /** `compare_monitors`: the monitors of `newmons` that the snapshot file does not list. */
    function CompareMonitors(newmons: seq<string>): (diff: set<string>)
      reads this
      ensures forall x :: x in diff <==> x in newmons && x !in Load(saveFile)
      ensures saveFile.None? ==> diff == set x | x in newmons
    {
      Difference(newmons, Load(saveFile))
    }

    /** `save_monitors`: the file is replaced, whatever it held, by the listing. */
    method SaveMonitors(monitors: seq<string>)
      modifies this`saveFile
      ensures saveFile == Some(SaveText(monitors))
    {
      saveFile := Some(SaveText(monitors));
    }

    /** `send_email`: one notification listing the new monitors, in set order. */
    method SendEmail(diff: set<string>) returns (body: string)
      modifies this`outbox
      ensures exists order :: IsEnumeration(order, diff) && body == Body(order)
      ensures outbox == old(outbox) + [body]
    {
      var order := Enumerate(diff);
      body := Body(order);
      outbox := outbox + [body];
    }

    /**
     * `main`: find the endpoint, fetch and strip the listing, compare it with
     * the snapshot, notify when something is new, then save the listing.
     * `fetch` stands for the HTTP GET of the listing at a URL.
     */
    method Run(scripts: seq<string>, fetch: string -> seq<Row>) returns (outcome: RunOutcome)
      modifies this
      ensures outcome.Completed? <==> Locate(scripts).Found?
      ensures outcome.Aborted? ==>
        outcome.cause == Locate(scripts) && saveFile == old(saveFile) && outbox == old(outbox)
      ensures outcome.Completed? ==>
        && outcome.diff == Difference(Listing(scripts, fetch), Load(old(saveFile)))
        && saveFile == Some(SaveText(Listing(scripts, fetch)))
      ensures outcome == Completed({}) ==> outbox == old(outbox)
      ensures outcome.Completed? && outcome.diff != {} ==>
        exists order :: IsEnumeration(order, outcome.diff) && outbox == old(outbox) + [Body(order)]
    {
      var located := LocateDataUrl(scripts);
      if !located.Found? {
        return Aborted(located);
      }
      var newmons := CurrentMonitors(fetch(located.url));
      var diff := CompareMonitors(newmons);
      if diff != {} {
        var _ := SendEmail(diff);
      }
      SaveMonitors(newmons);
      outcome := Completed(diff);
    }
  }

  /**
   * Two runs in a row on an unchanged page and listing: the second one
   * notifies nobody, when the listing's identifiers are single lines and the
   * last one is not empty.
   */
  method RunTwice(s: Searcher, scripts: seq<string>, fetch: string -> seq<Row>) returns (second: RunOutcome)
    requires Locate(scripts).Found?
    requires var ids := Listing(scripts, fetch);
      && (forall i :: 0 <= i < |ids| ==> '\n' !in ids[i] && '\r' !in ids[i])
      && (ids == [] || ids[|ids| - 1] != "")
    modifies s
    ensures second == Completed({})
    ensures s.saveFile == Some(SaveText(Listing(scripts, fetch)))
    ensures var first := Difference(Listing(scripts, fetch), Load(old(s.saveFile)));
      if first == {} then s.outbox == old(s.outbox)
      else exists order :: IsEnumeration(order, first) && s.outbox == old(s.outbox) + [Body(order)]
  {
    ghost var ids := Listing(scripts, fetch);
    assert forall i :: 0 <= i < |ids| ==> LineSafe(ids[i]);
    var first := s.Run(scripts, fetch);
    assert s.saveFile == Some(SaveText(ids));
    QuietRerun(ids);
    assert Difference(ids, Load(s.saveFile)) == {};
    second := s.Run(scripts, fetch);
    assert second.diff == Difference(ids, Load(Some(SaveText(ids))));
  }
}
