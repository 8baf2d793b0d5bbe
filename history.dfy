/** A user's recent actions: a log that holds at most five entries, dropping
    the oldest when a sixth arrives, and is shown newest first. */
module History {

  /** The most entries the log ever holds. */
  const Capacity: nat := 5

  /** How one action is written into the log, after its timestamp. */
  function Entry(timestamp: string, action: string): (r: string)
    ensures |r| == |timestamp| + |action| + 3
    ensures r[..1] == "[" && r[1..|timestamp| + 1] == timestamp
    ensures r[|timestamp| + 1..|timestamp| + 3] == "] " && r[|timestamp| + 3..] == action
  {
    "[" + timestamp + "] " + action
  }

  /** The log after `entry` is recorded: a full log first loses its oldest entry. */
  function Recorded(log: seq<string>, entry: string): (r: seq<string>)
    ensures |log| <= Capacity ==> |r| <= Capacity
    ensures |r| > 0 && r[|r| - 1] == entry
    ensures |log| < Capacity ==> |r| == |log| + 1 && r[..|log|] == log
    ensures |log| >= Capacity ==> |r| == |log| && r[..|log| - 1] == log[1..]
  {
    (if |log| >= Capacity then log[1..] else log) + [entry]
  }

  /** The log after recording `entries`, in order, starting from `log`. */
  function Replay(log: seq<string>, entries: seq<string>): seq<string>
    decreases |entries|
  {
    if entries == [] then log
    else Replay(Recorded(log, entries[0]), entries[1..])
  }

  /** The last `n` elements of `s`, or all of them when there are fewer. */
  function Newest(s: seq<string>, n: nat): (r: seq<string>)
    ensures |r| == if |s| <= n then |s| else n
  {
    if |s| <= n then s else s[|s| - n..]
  }

  /** Recording one entry keeps the window of newest entries. */
  lemma RecordedKeepsNewest(seen: seq<string>, entry: string)
    ensures Recorded(Newest(seen, Capacity), entry) == Newest(seen + [entry], Capacity)
  {
  }

  /** Starting from an empty log, the log always holds exactly the newest
      entries recorded so far, at most five of them, oldest first. */
  lemma {:induction false} ReplayKeepsNewest(seen: seq<string>, entries: seq<string>)
    ensures Replay(Newest(seen, Capacity), entries) == Newest(seen + entries, Capacity)
    decreases |entries|
  {
    if entries == [] {
      assert seen + entries == seen;
    } else {
      RecordedKeepsNewest(seen, entries[0]);
      ReplayKeepsNewest(seen + [entries[0]], entries[1..]);
      assert seen + [entries[0]] + entries[1..] == seen + entries;
    }
  }

  /** The log as shown to the user: newest entry first. */
  function Reversed(s: seq<string>): (r: seq<string>)
    ensures |r| == |s|
    ensures forall i :: 0 <= i < |s| ==> r[i] == s[|s| - 1 - i]
  {
    if s == [] then [] else Reversed(s[1..]) + [s[0]]
  }

  /** Showing the shown log again gives back the log. */
  lemma ReversedTwice(s: seq<string>)
    ensures Reversed(Reversed(s)) == s
  {
  }
}
