/**
 * Folder listings and the filter both scripts run over them: a loop that walks `getFiles()` in
 * order and pushes every entry whose name passes a test onto a fresh array.
 */
module Listing {

  /** An entry of a folder listing: its name, and the platform path handed to the host's import call. */
  datatype FileEntry = FileEntry(name: string, fsName: string)

  /**
   * The entries of `listing` whose name `accept` keeps, in listing order. It is defined on the last
   * entry so that it follows the push loop one iteration at a time.
   */
  function KeepByName(accept: string -> bool, listing: seq<FileEntry>): (kept: seq<FileEntry>)
    ensures |kept| <= |listing|
    ensures forall e <- kept :: e in listing && accept(e.name)
  {
    if listing == [] then []
    else
      var last := listing[|listing| - 1];
      KeepByName(accept, listing[..|listing| - 1]) + (if accept(last.name) then [last] else [])
  }

  /**
   * `result` lists the entries of `listing` at the strictly increasing `positions`: it is a
   * subsequence of the listing, in the listing's order.
   */
  ghost predicate PicksPositions(listing: seq<FileEntry>, positions: seq<nat>, result: seq<FileEntry>)
  {
    && |positions| == |result|
    && (forall i :: 0 <= i < |positions| ==> positions[i] < |listing| && result[i] == listing[positions[i]])
    && (forall i, j :: 0 <= i < j < |positions| ==> positions[i] < positions[j])
  }

  /** Extending the listing by one entry keeps the picks, and may pick the new last position. */
  lemma PicksExtend(init: seq<FileEntry>, x: FileEntry, positions: seq<nat>, result: seq<FileEntry>, take: bool)
    requires PicksPositions(init, positions, result)
    ensures take ==> PicksPositions(init + [x], positions + [|init|], result + [x])
    ensures !take ==> PicksPositions(init + [x], positions, result)
  {
  }

  /** The accepted positions of `init + [x]`: those of `init`, and `|init|` when `x` is accepted. */
  lemma AcceptedPositionsExtend(accept: string -> bool, init: seq<FileEntry>, x: FileEntry, positions: seq<nat>)
    requires forall k :: 0 <= k < |init| ==> (k in positions <==> accept(init[k].name))
    requires forall i :: 0 <= i < |positions| ==> positions[i] < |init|
    ensures var all := if accept(x.name) then positions + [|init|] else positions;
            forall k :: 0 <= k < |init + [x]| ==> (k in all <==> accept((init + [x])[k].name))
  {
  }

  /** The filter of `init + [x]` is the filter of `init`, followed by `x` when it is accepted. */
  lemma KeepByNameSnoc(accept: string -> bool, init: seq<FileEntry>, x: FileEntry)
    ensures KeepByName(accept, init + [x]) == KeepByName(accept, init) + (if accept(x.name) then [x] else [])
  {
    assert (init + [x])[..|init|] == init;
  }

  /** The positions the filter picks from `listing`, computed along the same recursion. */
  lemma {:induction false} PickedPositions(accept: string -> bool, listing: seq<FileEntry>) returns (positions: seq<nat>)
    ensures PicksPositions(listing, positions, KeepByName(accept, listing))
    ensures forall k :: 0 <= k < |listing| ==> (k in positions <==> accept(listing[k].name))
  {
    if listing == [] {
      positions := [];
    } else {
      var init, last := listing[..|listing| - 1], listing[|listing| - 1];
      assert listing == init + [last];
      var before := PickedPositions(accept, init);
      KeepByNameSnoc(accept, init, last);
      PicksExtend(init, last, before, KeepByName(accept, init), accept(last.name));
      AcceptedPositionsExtend(accept, init, last, before);
      positions := if accept(last.name) then before + [|init|] else before;
    }
  }

  /**
   * The filter picks exactly the positions whose entry is accepted, in increasing order: it never
   * reorders, never drops an accepted entry, and never takes one twice or takes a rejected one.
   */
  lemma KeepByNamePicksAccepted(accept: string -> bool, listing: seq<FileEntry>)
    ensures exists positions ::
              && PicksPositions(listing, positions, KeepByName(accept, listing))
              && (forall k :: 0 <= k < |listing| ==> (k in positions <==> accept(listing[k].name)))
  {
    var positions := PickedPositions(accept, listing);
  }

  /**
   * Each accepted entry appears in the result exactly as often as in the listing, and no rejected
   * entry appears: nothing is lost and nothing is duplicated.
   */
  lemma {:induction false} KeepByNameCounts(accept: string -> bool, listing: seq<FileEntry>, e: FileEntry)
    ensures multiset(KeepByName(accept, listing))[e] == if accept(e.name) then multiset(listing)[e] else 0
  {
    if listing != [] {
      var n := |listing| - 1;
      KeepByNameCounts(accept, listing[..n], e);
      assert listing == listing[..n] + [listing[n]];
    }
  }
}
