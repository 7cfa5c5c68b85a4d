/** The list of tracked background processes (`running_processes`): its
    entries, the periodic filter on liveness, the count of successful
    terminations and the status text built from the list's size. */
module Registry {
  import opened Wrappers
  import opened Text

  /** An operating-system process, known to the model only by identity. */
  type Pid = nat

  /** One `{'process': ..., 'name': ..., 'command': ...}` entry. */
  datatype ProcessInfo = ProcessInfo(process: Pid, name: string, command: string)

  /** `a` is `b` with some entries left out, the rest in the same order. */
  predicate IsSubsequence<T(==)>(a: seq<T>, b: seq<T>)
    decreases |b|
  {
    a == [] || (b != [] && ((a[0] == b[0] && IsSubsequence(a[1..], b[1..])) || IsSubsequence(a, b[1..])))
  }

  /** The list comprehension of the cleanup: entries whose `poll()` reports
      no exit status, i.e. whose process is still running. */
  function StillRunning(entries: seq<ProcessInfo>, poll: Pid -> Option<int>): (r: seq<ProcessInfo>)
    ensures |r| <= |entries|
    ensures forall e :: e in r <==> e in entries && poll(e.process).None?
  {
    if entries == [] then []
    else
      var rest := StillRunning(entries[1..], poll);
      assert entries == [entries[0]] + entries[1..];
      if poll(entries[0].process).None? then [entries[0]] + rest else rest
  }

  /** Cleanup keeps the original order. */
  lemma {:induction false} StillRunningKeepsOrder(entries: seq<ProcessInfo>, poll: Pid -> Option<int>)
    ensures IsSubsequence(StillRunning(entries, poll), entries)
  {
    if entries != [] {
      StillRunningKeepsOrder(entries[1..], poll);
      var rest := StillRunning(entries[1..], poll);
      if !poll(entries[0].process).None? {
        assert IsSubsequence(rest, entries[1..]);
      }
    }
  }

  /** Cleanup removes exactly the exited entries: a running entry keeps all
      its occurrences, an exited entry loses all of them. */
  lemma {:induction false} StillRunningCounts(entries: seq<ProcessInfo>, poll: Pid -> Option<int>, e: ProcessInfo)
    ensures multiset(StillRunning(entries, poll))[e]
            == if poll(e.process).None? then multiset(entries)[e] else 0
  {
    if entries != [] {
      StillRunningCounts(entries[1..], poll, e);
      assert entries == [entries[0]] + entries[1..];
    }
  }

  /** A second cleanup with the same liveness answers removes nothing more. */
  lemma {:induction false} StillRunningIdempotent(entries: seq<ProcessInfo>, poll: Pid -> Option<int>)
    ensures StillRunning(StillRunning(entries, poll), poll) == StillRunning(entries, poll)
  {
    if entries != [] {
      StillRunningIdempotent(entries[1..], poll);
    }
  }

  /** The number of entries whose `terminate()` returned without raising
      (`terminate` reports that per process). */
  function CountTerminated(entries: seq<ProcessInfo>, terminate: Pid -> bool): (r: nat)
    ensures r <= |entries|
    ensures r == |entries| <==> forall i :: 0 <= i < |entries| ==> terminate(entries[i].process)
    ensures r == 0 <==> forall i :: 0 <= i < |entries| ==> !terminate(entries[i].process)
  {
    if entries == [] then 0
    else
      var last := |entries| - 1;
      var front := entries[..last];
      assert forall i :: 0 <= i < last ==> front[i] == entries[i];
      CountTerminated(front, terminate) + (if terminate(entries[last].process) then 1 else 0)
  }

  const Ready: string := "Ready"

  /** `update_status_with_process_count`'s text for `count` tracked processes. */
  function ProcessCountStatus(count: nat): (r: string)
    ensures r == Ready <==> count == 0
  {
    if count > 0 then "Ready - " + NatToDecimal(count) + " background process(es) running"
    else Ready
  }

  /** The part between a fixed prefix and a fixed suffix is determined by the whole. */
  lemma Infix<T>(p: seq<T>, a: seq<T>, b: seq<T>, q: seq<T>)
    requires p + a + q == p + b + q
    ensures a == b
  {
    assert |a| == |b|;
    assert a == (p + a + q)[|p|..|p| + |a|];
    assert b == (p + b + q)[|p|..|p| + |b|];
  }

  /** The status text tells the number of tracked processes exactly. */
  lemma ProcessCountStatusInjective(m: nat, n: nat)
    requires ProcessCountStatus(m) == ProcessCountStatus(n)
    ensures m == n
  {
    if m > 0 && n > 0 {
      Infix("Ready - ", NatToDecimal(m), NatToDecimal(n), " background process(es) running");
      NatToDecimalInjective(m, n);
    }
  }
}
