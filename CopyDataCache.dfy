/** The editor's copy-data service: every copy command records the clipboard sequence number,
    the text view and the caret in a FIFO cache of at most fifty entries, which a later paste
    looks up by sequence number. The clipboard sequence number (a Win32 call) is a parameter. */
module CopyDataCache {
  import opened Common

  /** The record stored per copy; a text view is identified by a number. */
  datatype CopyData = CopyData(sequenceNumber: int, textView: nat, caretPosition: Option<nat>)

  /** The arguments of a copy command: the view and the caret the view reports. */
  datatype CopyCommandArgs = CopyCommandArgs(textView: nat, caretPoint: Option<nat>)

  datatype CommandState = CommandState(isAvailable: bool)

  datatype Exception = NotImplementedException

  const MaximumCacheSize: nat := 50

  /** The last `n` elements of `s`, or all of `s` when it is shorter. */
  function LastAtMost<T>(s: seq<T>, n: nat): (r: seq<T>)
    ensures |r| == Min(|s|, n)
    ensures s == s[..|s| - |r|] + r
  {
    if |s| <= n then s else s[|s| - n..]
  }

  /** `FirstOrDefault` over the cache: the oldest entry with the given sequence number. */
  function FirstWithSequenceNumber(cache: seq<CopyData>, sequenceNumber: int): (r: Option<CopyData>)
    ensures r.Some? <==> exists i :: 0 <= i < |cache| && cache[i].sequenceNumber == sequenceNumber
    ensures r.Some? ==> exists i :: 0 <= i < |cache| && cache[i] == r.value
                                  && r.value.sequenceNumber == sequenceNumber
                                  && forall j :: 0 <= j < i ==> cache[j].sequenceNumber != sequenceNumber
  {
    if cache == [] then None
    else if cache[0].sequenceNumber == sequenceNumber then Some(cache[0])
    else
      var r := FirstWithSequenceNumber(cache[1..], sequenceNumber);
      assert forall i :: 1 <= i < |cache| ==> cache[i] == cache[1..][i - 1];
      r
  }

  /** `GetCommandState` is not implemented by the service and always throws. */
  function GetCommandState(args: CopyCommandArgs): (r: Result<CommandState, Exception>)
    ensures r == Err(NotImplementedException)
  {
    Err(NotImplementedException)
  }

  class CopyDataService {
    /** The queue, oldest entry first. */
    var cache: seq<CopyData>
    /** Every entry ever stored, in order. */
    ghost var stored: seq<CopyData>

    /** The cache is bounded and holds exactly the most recent stores, in order. */
    ghost predicate Valid()
      reads this
    {
      |cache| <= MaximumCacheSize && cache == LastAtMost(stored, MaximumCacheSize)
    }

    constructor()
      ensures Valid()
      ensures cache == [] && stored == []
    {
      cache := [];
      stored := [];
    }

    /** The cached entry for a clipboard sequence number, or `None` when the clipboard data
        came from elsewhere. */
    function TryGetData(sequenceNumber: int): (r: Option<CopyData>)
      reads this
      ensures r.Some? ==> r.value in cache && r.value.sequenceNumber == sequenceNumber
      ensures r.None? ==> forall d :: d in cache ==> d.sequenceNumber != sequenceNumber
    {
      FirstWithSequenceNumber(cache, sequenceNumber)
    }

    /** `TryGetData()` looks the current clipboard sequence number up. */
    function TryGetCurrentData(clipboardSequenceNumber: int): (r: Option<CopyData>)
      reads this
      ensures r == TryGetData(clipboardSequenceNumber)
    {
      TryGetData(clipboardSequenceNumber)
    }

    /** Enqueues `data`, first dropping the oldest entry when the cache is full. */
    method Store(data: CopyData)
      requires Valid()
      modifies this
      ensures Valid()
      ensures stored == old(stored) + [data]
      ensures cache == (if |old(cache)| >= MaximumCacheSize then old(cache)[1..] else old(cache)) + [data]
      ensures TryGetData(data.sequenceNumber).Some?
    {
      if |cache| >= MaximumCacheSize {
        cache := cache[1..];
      }
      cache := cache + [data];
      stored := stored + [data];
      assert cache[|cache| - 1] == data;
      LastAtMostSnoc(old(stored), data, MaximumCacheSize);
    }

    /** A copy command stores one entry built from the clipboard sequence number and the
        caret, and never marks the command handled. */
    method ExecuteCommand(args: CopyCommandArgs, clipboardSequenceNumber: int) returns (handled: bool)
      requires Valid()
      modifies this
      ensures Valid()
      ensures !handled
      ensures stored == old(stored) + [CopyData(clipboardSequenceNumber, args.textView, args.caretPoint)]
      ensures TryGetData(clipboardSequenceNumber).Some?
    {
      Store(CopyData(clipboardSequenceNumber, args.textView, args.caretPoint));
      handled := false;
    }
  }

  /** Appending one element moves the window of the last `n` elements by one. */
  lemma LastAtMostSnoc<T>(s: seq<T>, x: T, n: nat)
    requires n > 0
    ensures LastAtMost(s + [x], n)
         == (if |LastAtMost(s, n)| >= n then LastAtMost(s, n)[1..] else LastAtMost(s, n)) + [x]
  {
    if |s| + 1 > n {
      assert (s + [x])[|s| + 1 - n..] == s[|s| + 1 - n..] + [x];
      if |s| >= n {
        assert s[|s| - n..][1..] == s[|s| + 1 - n..];
      }
    }
  }
}
