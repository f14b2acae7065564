/** The timestamp brute-force search: every second of a window of whole days
    is tried in increasing order, day by day and second by second, until one
    seeds a key under which the file decrypts, or the window runs out. */
module KeySpaceSearch {
  import opened Layout
  import opened Attempt

  const SecondsPerDay: nat := 86400

  /** A progress line is printed after every this many attempts. */
  const ProgressInterval: nat := 10000

  /** A progress observation: attempts so far and the second just tried. */
  datatype Progress = Progress(attempts: nat, timestamp: int)

  /** The end of a search run. `brute_force_decrypt` returns only the
      plaintext or None and prints the rest; the timestamp and counter are
      kept here. */
  datatype SearchResult =
    | Found(timestamp: int, plaintext: seq<byte>, attempts: nat)
    | NotFound(attempts: nat)
  {
    /** What the search function hands back to its caller. */
    function Plaintext(): Option<seq<byte>>
    {
      if Found? then Some(plaintext) else None
    }

    /** Attempts that did not succeed. */
    function Misses(): int
    {
      if Found? then attempts - 1 else attempts
    }
  }

  /** Number of candidate seconds in a window of `numDays` days; a
      non-positive day count gives an empty range. */
  function WindowSize(numDays: int): nat
  {
    if numDays <= 0 then 0 else numDays * 86400
  }

  /** The first `n` seconds from `start`, in increasing order. */
  function Window(start: int, n: nat): seq<int>
  {
    seq(n, i => start + i)
  }

  /** The seconds of day `day` of the window, in the inner loop's order. */
  function DayCandidates(start: int, day: int): seq<int>
  {
    seq(SecondsPerDay, s => start + day * 86400 + s)
  }

  /** The seconds in the order the two nested loops produce them. */
  function NestedOrder(start: int, numDays: int): seq<int>
    decreases numDays
  {
    if numDays <= 0 then [] else NestedOrder(start, numDays - 1) + DayCandidates(start, numDays - 1)
  }

  /** Enumerating (day, second-in-day) pairs visits each second of the window
      exactly once, in strictly increasing order: the nested order is the flat
      window. */
  lemma {:induction false} NestedOrderIsWindow(start: int, numDays: int)
    ensures NestedOrder(start, numDays) == Window(start, WindowSize(numDays))
    decreases numDays
  {
    if numDays > 0 {
      NestedOrderIsWindow(start, numDays - 1);
      var prev := WindowSize(numDays - 1);
      assert WindowSize(numDays) == prev + 86400;
      var w := Window(start, WindowSize(numDays));
      assert w == Window(start, prev) + DayCandidates(start, numDays - 1) by {
        forall i | 0 <= i < |w|
          ensures w[i] == (Window(start, prev) + DayCandidates(start, numDays - 1))[i]
        {
          if i >= prev {
            assert DayCandidates(start, numDays - 1)[i - prev] == start + (numDays - 1) * 86400 + (i - prev);
          }
        }
      }
    }
  }

  /** No second in [lo, hi) yields a plaintext. */
  ghost predicate NoHitIn(p: Primitives, file: seq<byte>, lo: int, hi: int)
  {
    forall t :: lo <= t < hi ==> TryDecrypt(p, file, t) == None
  }

  /** Reference definition of the search, from attempt index `i` on: the
      first index at which the attempt succeeds, or exhaustion. */
  function SearchFrom(p: Primitives, file: seq<byte>, start: int, total: nat, i: nat): (r: SearchResult)
    requires i <= total
    ensures r.Found? ==>
      && start + i <= r.timestamp < start + total
      && TryDecrypt(p, file, r.timestamp) == Some(r.plaintext)
      && r.attempts == r.timestamp - start + 1
      && NoHitIn(p, file, start + i, r.timestamp)
    ensures r.NotFound? ==> r.attempts == total && NoHitIn(p, file, start + i, start + total)
    decreases total - i
  {
    if i == total then NotFound(total)
    else match TryDecrypt(p, file, start + i)
      case Some(plaintext) => Found(start + i, plaintext, i + 1)
      case None => SearchFrom(p, file, start, total, i + 1)
  }

  /** The search over the window of `numDays` days from `start`. A result is
      Found at the earliest second of the window whose attempt succeeds, with
      the attempt counter one past its offset; otherwise NotFound after
      trying every second. */
  function Search(p: Primitives, file: seq<byte>, start: int, numDays: int): (r: SearchResult)
    ensures r.Found? ==>
      && start <= r.timestamp < start + WindowSize(numDays)
      && TryDecrypt(p, file, r.timestamp) == Some(r.plaintext)
      && r.attempts == r.timestamp - start + 1
      && NoHitIn(p, file, start, r.timestamp)
    ensures r.NotFound? ==>
      r.attempts == WindowSize(numDays) && NoHitIn(p, file, start, start + WindowSize(numDays))
  {
    SearchFrom(p, file, start, WindowSize(numDays), 0)
  }

  /** The search finds something exactly when some second of the window
      yields a plaintext, and what it finds is the smallest such second. */
  lemma SearchFindsIff(p: Primitives, file: seq<byte>, start: int, numDays: int)
    ensures Search(p, file, start, numDays).Found?
        <==> exists t :: start <= t < start + WindowSize(numDays) && TryDecrypt(p, file, t).Some?
    ensures forall t :: start <= t < start + WindowSize(numDays) && TryDecrypt(p, file, t).Some? ==>
      Search(p, file, start, numDays).Found? && Search(p, file, start, numDays).timestamp <= t
  {
  }

  /** When the key-generating second lies in the window and no earlier second
      of the window verifies, the search recovers that second and its
      plaintext after `t - start + 1` attempts. */
  lemma RecoversTrueSecond(p: Primitives, file: seq<byte>, start: int, numDays: int, t: int, message: seq<byte>)
    requires start <= t < start + WindowSize(numDays)
    requires TryDecrypt(p, file, t) == Some(message)
    requires NoHitIn(p, file, start, t)
    ensures Search(p, file, start, numDays) == Found(t, message, t - start + 1)
  {
  }

  /** A window in which no second verifies is searched to the end: NotFound
      with one attempt per second, and zero attempts for `numDays <= 0`. */
  lemma ExhaustsWindow(p: Primitives, file: seq<byte>, start: int, numDays: int)
    requires NoHitIn(p, file, start, start + WindowSize(numDays))
    ensures Search(p, file, start, numDays) == NotFound(WindowSize(numDays))
    ensures numDays <= 0 ==> Search(p, file, start, numDays) == NotFound(0)
  {
  }

  /** Under the cipher's length rules, a file shorter than the header is
      searched to the end of the window without success. */
  lemma ShortFileNotFound(p: Primitives, file: seq<byte>, start: int, numDays: int)
    requires GcmLengthRules(p)
    requires |file| < HeaderLength
    ensures Search(p, file, start, numDays) == NotFound(WindowSize(numDays))
  {
  }

  /** Progress events after the first `misses` unsuccessful attempts: one
      after every attempt whose count is a multiple of the interval, carrying
      that count and the second it tried. */
  function ProgressLog(start: int, misses: int): seq<Progress>
    decreases misses
  {
    if misses <= 0 then []
    else ProgressLog(start, misses - 1)
         + (if misses % 10000 == 0 then [Progress(misses, start + misses - 1)] else [])
  }

  /** The progress log lists attempts 10000, 20000, ... up to the number of
      misses and no further, each with the second tried at that attempt. */
  lemma {:induction false} ProgressLogExact(start: int, misses: int)
    ensures |ProgressLog(start, misses)| == (if misses <= 0 then 0 else misses / 10000)
    ensures forall k :: 0 <= k < |ProgressLog(start, misses)| ==>
      ProgressLog(start, misses)[k] == Progress((k + 1) * 10000, start + (k + 1) * 10000 - 1)
    decreases misses
  {
    if misses > 0 {
      ProgressLogExact(start, misses - 1);
      if misses % 10000 == 0 {
        assert misses / 10000 == (misses - 1) / 10000 + 1;
        assert misses == (misses / 10000) * 10000;
      } else {
        assert misses / 10000 == (misses - 1) / 10000;
      }
    }
  }

  /** No progress is reported for the succeeding attempt or anything after
      it: every event of a found search is for an earlier attempt and an
      earlier second. */
  lemma NoProgressAfterSuccess(start: int, r: SearchResult)
    requires r.Found? && r.attempts == r.timestamp - start + 1
    ensures forall e :: e in ProgressLog(start, r.Misses()) ==>
      e.attempts < r.attempts && e.timestamp < r.timestamp
  {
    ProgressLogExact(start, r.Misses());
    forall e | e in ProgressLog(start, r.Misses())
      ensures e.attempts < r.attempts && e.timestamp < r.timestamp
    {
      var k :| 0 <= k < |ProgressLog(start, r.Misses())| && ProgressLog(start, r.Misses())[k] == e;
      assert (k + 1) * 10000 <= r.Misses() by {
        assert k + 1 <= r.Misses() / 10000;
      }
    }
  }

  /** The search loop. Tries `start + day * 86400 + second` for each day and
      each second of the day, counting attempts and logging progress, and
      stops at the first plaintext. `queried` is the sequence of seconds
      passed to the attempt, in call order. */
  method BruteForceDecrypt(p: Primitives, file: seq<byte>, start: int, numDays: int)
    returns (result: SearchResult, progress: seq<Progress>, queried: seq<int>)
    ensures result == Search(p, file, start, numDays)
    ensures queried == Window(start, result.attempts)
    ensures queried <= NestedOrder(start, numDays)
    ensures progress == ProgressLog(start, result.Misses())
  {
    var total := WindowSize(numDays);
    var attempts: nat := 0;
    progress := [];
    queried := [];
    var day := 0;
    while day < numDays
      invariant 0 <= day && (numDays > 0 ==> day <= numDays)
      invariant attempts == day * 86400 <= total
      invariant queried == Window(start, attempts)
      invariant progress == ProgressLog(start, attempts)
      invariant SearchFrom(p, file, start, total, attempts) == Search(p, file, start, numDays)
    {
      var second := 0;
      while second < SecondsPerDay
        invariant 0 <= second <= SecondsPerDay
        invariant attempts == day * 86400 + second <= total
        invariant queried == Window(start, attempts)
        invariant progress == ProgressLog(start, attempts)
        invariant SearchFrom(p, file, start, total, attempts) == Search(p, file, start, numDays)
      {
        var timestamp := start + day * 86400 + second;
        var plaintext := TryDecrypt(p, file, timestamp);
        queried := queried + [timestamp];
        attempts := attempts + 1;
        if plaintext.Some? {
          result := Found(timestamp, plaintext.value, attempts);
          NestedOrderIsWindow(start, numDays);
          return;
        }
        if attempts % ProgressInterval == 0 {
          progress := progress + [Progress(attempts, timestamp)];
        }
        second := second + 1;
      }
      day := day + 1;
    }
    result := NotFound(attempts);
    NestedOrderIsWindow(start, numDays);
  }

  /** Running the search twice on the same file and window gives the same
      result, the same progress log and the same sequence of attempts. */
  method SearchTwice(p: Primitives, file: seq<byte>, start: int, numDays: int)
    returns (first: SearchResult, second: SearchResult,
             log1: seq<Progress>, log2: seq<Progress>, q1: seq<int>, q2: seq<int>)
    ensures first == second && log1 == log2 && q1 == q2
    ensures first.Plaintext() == Search(p, file, start, numDays).Plaintext()
  {
    first, log1, q1 := BruteForceDecrypt(p, file, start, numDays);
    second, log2, q2 := BruteForceDecrypt(p, file, start, numDays);
  }
}
