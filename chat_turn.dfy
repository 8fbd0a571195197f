/** The pure pieces of one chat turn: the part of the day named in the prompt and the
    rolling memory kept for the owner, capped to its last 5000 characters. */
module ChatTurn {
  import opened Seqs

  const MemoryLimit: nat := 5000

  /** The part of the day for an hour of the clock. */
  function TimeGreeting(hour: int): (r: string)
    requires 0 <= hour < 24
    ensures r == "morning" <==> 5 <= hour < 12
    ensures r == "afternoon" <==> 12 <= hour < 17
    ensures r == "evening" <==> 17 <= hour < 21
    ensures r == "night" <==> hour < 5 || 21 <= hour
  {
    if 5 <= hour < 12 then "morning"
    else if 12 <= hour < 17 then "afternoon"
    else if 17 <= hour < 21 then "evening"
    else "night"
  }

  /** The text one turn appends to the memory. */
  function Entry(msg: string, reply: string): string {
    "\nU: " + msg + "\nB: " + reply
  }

  /** The memory stored after a turn: `(memory + entry)[-5000:]`. */
  function RollingMemory(memory: string, msg: string, reply: string): (r: string)
    ensures |r| <= MemoryLimit
    ensures |r| == if |memory + Entry(msg, reply)| <= MemoryLimit then |memory + Entry(msg, reply)| else MemoryLimit
    ensures r == (memory + Entry(msg, reply))[|memory + Entry(msg, reply)| - |r|..]
    ensures |memory + Entry(msg, reply)| <= MemoryLimit ==> r == memory + Entry(msg, reply)
  {
    TakeLast(memory + Entry(msg, reply), MemoryLimit)
  }

  /** Appending after a cut is the same as cutting once at the end: the cap never loses
      anything the final cut would keep. */
  lemma TakeLastAbsorbs<T>(a: seq<T>, b: seq<T>, n: nat)
    ensures TakeLast(TakeLast(a, n) + b, n) == TakeLast(a + b, n)
  {
    if |a| > n {
      var k := |a| - n;
      var s := TakeLast(a, n) + b;
      assert TakeLast(a, n) == a[k..];
      assert s == (a + b)[k..];
      assert TakeLast(s, n) == s[|b|..];
      assert TakeLast(a + b, n) == (a + b)[k + |b|..];
    }
  }

  /** A memory that is the cut of `m + t` stays the cut of everything after one more entry. */
  lemma CutStep<T>(m: seq<T>, t: seq<T>, prev: seq<T>, e: seq<T>, n: nat)
    requires prev == TakeLast(m + t, n)
    ensures TakeLast(prev + e, n) == TakeLast(m + (t + e), n)
  {
    TakeLastAbsorbs(m + t, e, n);
    assert m + t + e == m + (t + e);
  }

  datatype Turn = Turn(msg: string, reply: string)

  /** Everything the turns append, in order. */
  function Transcript(turns: seq<Turn>): string {
    if turns == [] then ""
    else Transcript(turns[..|turns| - 1]) + Entry(turns[|turns| - 1].msg, turns[|turns| - 1].reply)
  }

  /** The memory after a series of chat turns starting from `memory`. */
  function Replay(memory: string, turns: seq<Turn>): string {
    if turns == [] then memory
    else
      var last := turns[|turns| - 1];
      RollingMemory(Replay(memory, turns[..|turns| - 1]), last.msg, last.reply)
  }

  /** After any number of turns (at least one), the stored memory is exactly the last
      5000 characters of the initial memory followed by every turn's text. */
  lemma {:induction false} ReplayKeepsLatest(memory: string, turns: seq<Turn>)
    requires turns != []
    ensures Replay(memory, turns) == TakeLast(memory + Transcript(turns), MemoryLimit)
  {
    var init := turns[..|turns| - 1];
    var e := Entry(turns[|turns| - 1].msg, turns[|turns| - 1].reply);
    LastTurn(memory, turns);
    if init == [] {
      assert "" + e == e;
    } else {
      ReplayKeepsLatest(memory, init);
      CutStep(memory, Transcript(init), Replay(memory, init), e, MemoryLimit);
    }
  }

  /** One turn more: the last turn's text is cut onto the memory of the earlier turns. */
  lemma LastTurn(memory: string, turns: seq<Turn>)
    requires turns != []
    ensures
      var init := turns[..|turns| - 1];
      var e := Entry(turns[|turns| - 1].msg, turns[|turns| - 1].reply);
      && Replay(memory, turns) == TakeLast(Replay(memory, init) + e, MemoryLimit)
      && Transcript(turns) == Transcript(init) + e
      && (init == [] ==> Replay(memory, init) == memory && Transcript(init) == "")
  {
  }
}
