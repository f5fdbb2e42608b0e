/**
 * The log panel of the window: it shows only the most recent messages,
 * dropping the oldest once the panel is full.
 */
module LogView {

  /** How many messages the panel keeps. */
  const Capacity: nat := 10

  /** The last `Capacity` messages of `history` (all of them if fewer), in
      arrival order. */
  function Recent(history: seq<string>): (r: seq<string>)
    ensures |r| <= Capacity
    ensures |r| == if |history| < Capacity then |history| else Capacity
  {
    if |history| <= Capacity then history else history[|history| - Capacity..]
  }

  /** Recent messages are a suffix of the history. */
  lemma {:induction false} RecentIsSuffix(history: seq<string>)
    ensures var r := Recent(history);
      forall k :: 0 <= k < |r| ==> r[k] == history[|history| - |r| + k]
  {
  }

  /** One more message: the panel drops its oldest line when full and then
      shows the new one last. */
  lemma {:induction false} RecentSnoc(history: seq<string>, message: string)
    ensures var before := Recent(history);
      Recent(history + [message]) == (if |before| >= Capacity then before[1..] else before) + [message]
  {
    var h := history + [message];
    if |history| >= Capacity {
      assert h[|h| - Capacity..] == history[|history| - Capacity..][1..] + [message];
    }
  }

  class LogBuffer {
    /** The lines on display, oldest first. */
    var lines: seq<string>
    /** Every message received so far. */
    ghost var history: seq<string>

    ghost predicate Valid()
      reads this
    {
      lines == Recent(history)
    }

    constructor ()
      ensures Valid() && history == [] && lines == []
    {
      lines := [];
      history := [];
    }

    /** Receives one message. */
    method Add(message: string)
      requires Valid()
      modifies this
      ensures Valid()
      ensures history == old(history) + [message]
      ensures |lines| <= Capacity && lines[|lines| - 1] == message
      ensures lines == (if |old(lines)| >= Capacity then old(lines)[1..] else old(lines)) + [message]
    {
      RecentSnoc(history, message);
      if |lines| >= Capacity {
        lines := lines[1..];
      }
      lines := lines + [message];
      history := history + [message];
    }
  }
}
