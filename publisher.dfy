/** One update cycle of the rich-list publisher and its endless loop of
    cycles. The node request, the folder creation, the file write and the
    clock are not modelled; their outcomes are the inputs of a cycle. */
module Publisher {
  import opened Snapshot
  import opened RichList

  /** Seconds between two successful updates. */
  const UPDATE_INTERVAL: nat := 3600
  /** Seconds before retrying after a failed cycle. */
  const RETRY_DELAY: nat := 60

  datatype Option<T> = None | Some(value: T)

  /** What the world supplies to one cycle: the fetched snapshot (None when
      the request failed), the current UTC time stamp, and whether creating
      the data folder and writing the file succeed. */
  datatype Cycle = Cycle(
    fetched: Option<seq<Entry>>,
    now: string,
    folderCreated: bool,
    fileWritten: bool)

  /** A snapshot the cycle goes on with: present and not empty. */
  predicate Usable(fetched: Option<seq<Entry>>) {
    fetched.Some? && fetched.value != []
  }

  /** A cycle ends in success exactly when every step of it does. */
  predicate Succeeds(c: Cycle) {
    Usable(c.fetched) && c.folderCreated && c.fileWritten
  }

  /** One update: returns whether it succeeded and the artifact it wrote. */
  method UpdateRichList(c: Cycle) returns (success: bool, written: Option<Artifact>)
    ensures success <==> Usable(c.fetched) && c.folderCreated && c.fileWritten
    ensures written.Some? <==> success
    ensures written.Some? ==> written.value == ArtifactOf(c.now, c.fetched.value)
  {
    if c.fetched.None? || c.fetched.value == [] {
      return false, None;
    }
    var list := BuildRichList(c.now, c.fetched.value);
    if !c.folderCreated {
      return false, None;
    }
    if !c.fileWritten {
      return false, None;
    }
    return true, Some(list);
  }

  /** The file's content after the given cycles, each success overwriting it. */
  function FileAfter(initial: Option<Artifact>, cycles: seq<Cycle>): Option<Artifact> {
    if cycles == [] then initial
    else
      var last := cycles[|cycles| - 1];
      if Succeeds(last) then Some(ArtifactOf(last.now, last.fetched.value))
      else FileAfter(initial, cycles[..|cycles| - 1])
  }

  /** The first |cycles| rounds of the publisher's loop: run a cycle, then
      wait the retry delay after a failure or the update interval after a
      success. Returns the waits chosen and the file's final content. */
  method Run(initial: Option<Artifact>, cycles: seq<Cycle>) returns (waits: seq<nat>, file: Option<Artifact>)
    ensures |waits| == |cycles|
    ensures forall i :: 0 <= i < |cycles| ==>
      waits[i] == if Succeeds(cycles[i]) then UPDATE_INTERVAL else RETRY_DELAY
    ensures file == FileAfter(initial, cycles)
  {
    waits := [];
    file := initial;
    for i := 0 to |cycles|
      invariant |waits| == i
      invariant forall k :: 0 <= k < i ==>
        waits[k] == if Succeeds(cycles[k]) then UPDATE_INTERVAL else RETRY_DELAY
      invariant file == FileAfter(initial, cycles[..i])
    {
      assert cycles[..i + 1][..i] == cycles[..i];
      var success, written := UpdateRichList(cycles[i]);
      if !success {
        waits := waits + [RETRY_DELAY];
        continue;
      }
      file := written;
      waits := waits + [UPDATE_INTERVAL];
    }
    assert cycles[..|cycles|] == cycles;
  }

  /** No history is kept: after a run the file holds the artifact of the
      last successful cycle, whatever earlier cycles wrote. */
  lemma {:induction false} FileIsLastSuccess(initial: Option<Artifact>, cycles: seq<Cycle>, i: nat)
    requires i < |cycles| && Succeeds(cycles[i])
    requires forall k :: i < k < |cycles| ==> !Succeeds(cycles[k])
    ensures FileAfter(initial, cycles) == Some(ArtifactOf(cycles[i].now, cycles[i].fetched.value))
  {
    if i < |cycles| - 1 {
      var init := cycles[..|cycles| - 1];
      FileIsLastSuccess(initial, init, i);
    }
  }

  /** Failed cycles never touch the file. */
  lemma {:induction false} FileUntouchedWithoutSuccess(initial: Option<Artifact>, cycles: seq<Cycle>)
    requires forall k :: 0 <= k < |cycles| ==> !Succeeds(cycles[k])
    ensures FileAfter(initial, cycles) == initial
  {
    if cycles != [] {
      FileUntouchedWithoutSuccess(initial, cycles[..|cycles| - 1]);
    }
  }
}
