/** task/task_tty.c: the key ring of a terminal and the line editor that serves one read. */
module Tty {
  import opened Common

  const RING_SIZE: nat := 256
  const BACKSPACE: int := 8
  const NEWLINE: int := 10

  predicate Printable(ch: int) { 32 <= ch <= 126 }

  /** A 32-bit key read into a signed char. */
  function Char(key: nat): int {
    var b := key % 256;
    if b < 128 then b else b - 256
  }

  function Chars(keys: seq<nat>): (r: seq<int>) {
    seq(|keys|, i requires 0 <= i < |keys| => Char(keys[i]))
  }

  // ---- one read ----

  datatype Message = Suspend(caller: nat, cnt: int) | Resume(caller: nat, pid: nat, cnt: int)

  /** The request being served: who asked, for whom, how many characters are left and how many
      have been put into the reader's buffer, the buffer, and the messages sent so far. */
  datatype Line = Line(caller: nat, pid: nat, left: int, trans: nat, buf: map<nat, int>, sent: seq<Message>)

  /** tty_do_read. */
  function DoRead(l: Line, caller: nat, pid: nat, cnt: int): Line {
    Line(caller, pid, cnt, 0, map[], l.sent + [Suspend(caller, cnt)])
  }

  /** One round of tty_dev_write. */
  function OneChar(l: Line, ch: int): Line {
    if l.left == 0 then l else
    var l1 :=
      if Printable(ch) then l.(buf := l.buf[l.trans := ch], trans := l.trans + 1, left := l.left - 1)
      else if ch == BACKSPACE && l.trans > 0 then l.(trans := l.trans - 1, left := l.left + 1)
      else l;
    if ch == NEWLINE || l1.left == 0 then l1.(left := 0, sent := l1.sent + [Resume(l.caller, l.pid, l1.trans)])
    else l1
  }

  function Feed(l: Line, chars: seq<int>): Line {
    if chars == [] then l else OneChar(Feed(l, chars[..|chars| - 1]), chars[|chars| - 1])
  }

  /** What a user means by typing: printable characters, each backspace rubbing one out. */
  function Edited(chars: seq<int>): seq<int> {
    if chars == [] then [] else
    var before, ch := Edited(chars[..|chars| - 1]), chars[|chars| - 1];
    if Printable(ch) then before + [ch]
    else if ch == BACKSPACE && before != [] then before[..|before| - 1]
    else before
  }

  /** One more key: a printable ASCII key appends its own character, a backspace rubs out the last one,
      and any other key changes nothing. */
  lemma EditedKey(keys: seq<nat>, key: nat)
    ensures var line, low := Edited(Chars(keys)), key % 256;
            Edited(Chars(keys + [key])) ==
              if 32 <= low <= 126 then line + [low]
              else if low == 8 && line != [] then line[..|line| - 1]
              else line
  {
    var all := Chars(keys + [key]);
    assert all[..|all| - 1] == Chars(keys) && all[|all| - 1] == Char(key);
  }

  /** Printable ASCII keys are edited into exactly themselves. */
  lemma {:induction false} PlainText(keys: seq<nat>)
    requires forall i :: 0 <= i < |keys| ==> 32 <= keys[i] <= 126
    ensures |Edited(Chars(keys))| == |keys| && forall i :: 0 <= i < |keys| ==> Edited(Chars(keys))[i] == keys[i]
    decreases |keys|
  {
    if keys != [] {
      var before, key := keys[..|keys| - 1], keys[|keys| - 1];
      PlainText(before);
      EditedKey(before, key);
      assert keys == before + [key];
    }
  }

  /** The read of `cnt` characters is over once these have been typed: the last one ends the line
      or fills the buffer. */
  predicate Ends(chars: seq<int>, cnt: int) {
    chars != [] && (chars[|chars| - 1] == NEWLINE || |Edited(chars)| == cnt)
  }

  /** How many of the characters the read takes: up to and including the first that ends it. */
  function Taken(chars: seq<int>, cnt: int): (r: Option<nat>)
    ensures r.Some? ==> 0 < r.value <= |chars| && Ends(chars[..r.value], cnt)
    ensures forall j :: 0 <= j <= |chars| && (r.None? || j < r.value) ==> !Ends(chars[..j], cnt)
  {
    if chars == [] then None else
    var rest := chars[..|chars| - 1];
    assert forall j :: 0 <= j <= |rest| ==> rest[..j] == chars[..j];
    assert chars[..|chars|] == chars;
    match Taken(rest, cnt)
    case Some(j) => Some(j)
    case None => if Ends(chars, cnt) then Some(|chars|) else None
  }

  predicate Holds(buf: map<nat, int>, s: seq<int>) {
    forall k: nat {:trigger HoldsAt(buf, s, k)} :: k < |s| ==> HoldsAt(buf, s, k)
  }

  predicate HoldsAt(buf: map<nat, int>, s: seq<int>, k: nat)
    requires k < |s|
  {
    k in buf && buf[k] == s[k]
  }

  /** What a read of `cnt` characters must have come to after `chars`: while it goes on the
      buffer holds the edited line and the counts add up; when it ends, one message resumes the
      reader with the length of the edited line, and later keys change nothing. */
  predicate Served(start: Line, l: Line, chars: seq<int>, cnt: int) {
    && l.caller == start.caller && l.pid == start.pid
    && match Taken(chars, cnt)
       case None =>
         && l.sent == start.sent && l.trans + l.left == cnt && l.left != 0
         && l.trans == |Edited(chars)| && Holds(l.buf, Edited(chars))
       case Some(j) =>
         && l.left == 0 && l.sent == start.sent + [Resume(l.caller, l.pid, |Edited(chars[..j])|)]
         && l.trans == |Edited(chars[..j])| && Holds(l.buf, Edited(chars[..j]))
  }

  lemma {:induction false} ReadServed(start: Line, chars: seq<int>, cnt: int)
    requires start.left == cnt && start.trans == 0 && cnt != 0
    ensures Served(start, Feed(start, chars), chars, cnt)
    decreases |chars|
  {
    if chars != [] {
      var rest, ch := chars[..|chars| - 1], chars[|chars| - 1];
      ReadServed(start, rest, cnt);
      ServedNext(start, Feed(start, rest), chars, cnt);
    }
  }

  lemma ServedNext(start: Line, l: Line, chars: seq<int>, cnt: int)
    requires chars != [] && Served(start, l, chars[..|chars| - 1], cnt)
    ensures Served(start, OneChar(l, chars[|chars| - 1]), chars, cnt)
  {
    var rest, ch := chars[..|chars| - 1], chars[|chars| - 1];
    var t := Taken(rest, cnt);
    if t.Some? {
      assert rest[..t.value] == chars[..t.value];
    } else {
      assert chars[..|chars|] == chars;
      HoldsNext(l.buf, Edited(rest), ch);
    }
  }

  lemma HoldsNext(buf: map<nat, int>, s: seq<int>, ch: int)
    requires Holds(buf, s)
    ensures Holds(buf[|s| := ch], s + [ch]) && (s != [] ==> Holds(buf, s[..|s| - 1]))
  {
    var buf', longer := buf[|s| := ch], s + [ch];
    forall k: nat | k < |longer| ensures HoldsAt(buf', longer, k) {
      assert k < |s| ==> HoldsAt(buf, s, k);
    }
    if s != [] {
      var shorter := s[..|s| - 1];
      forall k: nat | k < |shorter| ensures HoldsAt(buf, shorter, k) {
        assert HoldsAt(buf, s, k);
      }
    }
  }

  /** A read of nothing suspends its caller and never resumes it. */
  lemma {:induction false} EmptyReadNeverResumes(l: Line, caller: nat, pid: nat, chars: seq<int>)
    ensures Feed(DoRead(l, caller, pid, 0), chars) == DoRead(l, caller, pid, 0)
    decreases |chars|
  {
    if chars != [] { EmptyReadNeverResumes(l, caller, pid, chars[..|chars| - 1]); }
  }

  lemma {:induction false} FeedAppend(l: Line, a: seq<int>, b: seq<int>)
    ensures Feed(l, a + b) == Feed(Feed(l, a), b)
    decreases |b|
  {
    if b == [] {
      assert a + b == a;
    } else {
      assert (a + b)[..|a + b| - 1] == a + b[..|b| - 1];
      FeedAppend(l, a, b[..|b| - 1]);
    }
  }

  lemma FeedFirst(l: Line, key: nat, keys: seq<nat>)
    ensures Feed(l, Chars([key] + keys)) == Feed(OneChar(l, Char(key)), Chars(keys))
  {
    assert Chars([key] + keys) == [Char(key)] + Chars(keys);
    FeedAppend(l, [Char(key)], Chars(keys));
    assert Feed(l, [Char(key)]) == OneChar(l, Char(key)) by { assert [Char(key)][..0] == []; }
  }

  // ---- keys arriving while a read is served ----

  datatype Event = Press(key: nat) | Drain

  datatype Terminal = Terminal(queue: seq<nat>, line: Line)

  function Enqueue(queue: seq<nat>, key: nat): seq<nat> {
    if |queue| < RING_SIZE then queue + [key] else queue
  }

  function Step(t: Terminal, e: Event): Terminal {
    match e
    case Press(k) => t.(queue := Enqueue(t.queue, k))
    case Drain => Terminal([], Feed(t.line, Chars(t.queue)))
  }

  function Run(t: Terminal, events: seq<Event>): Terminal {
    if events == [] then t else Step(Run(t, events[..|events| - 1]), events[|events| - 1])
  }

  /** The keys that found room in the ring, in the order of their arrival. */
  function Accepted(t: Terminal, events: seq<Event>): seq<nat> {
    if events == [] then t.queue else
    var before, e := events[..|events| - 1], events[|events| - 1];
    if e.Press? && |Run(t, before).queue| < RING_SIZE then Accepted(t, before) + [e.key] else Accepted(t, before)
  }

  /** The last of `keys` are in the ring and the ones before have gone through the line `start`. */
  predicate InTransit(start: Line, r: Terminal, keys: seq<nat>) {
    && |r.queue| <= |keys| && r.queue == keys[|keys| - |r.queue|..]
    && r.line == Feed(start, Chars(keys[..|keys| - |r.queue|]))
  }

  lemma PressInTransit(start: Line, r: Terminal, keys: seq<nat>, k: nat)
    requires InTransit(start, r, keys)
    ensures InTransit(start, r.(queue := r.queue + [k]), keys + [k])
  {
    var n := |keys| - |r.queue|;
    assert (keys + [k])[..n] == keys[..n] && (keys + [k])[n..] == keys[n..] + [k];
  }

  lemma DrainInTransit(start: Line, r: Terminal, keys: seq<nat>)
    requires InTransit(start, r, keys)
    ensures InTransit(start, Step(r, Drain), keys)
  {
    var n := |keys| - |r.queue|;
    assert Chars(keys[..n]) + Chars(r.queue) == Chars(keys);
    assert keys[..|keys|] == keys;
    FeedAppend(start, Chars(keys[..n]), Chars(r.queue));
  }

  /** Every accepted key is either still in the ring or has been fed to the line, in order. */
  lemma {:induction false} InOrder(t: Terminal, events: seq<Event>)
    ensures InTransit(t.line, Run(t, events), Accepted(t, events))
    decreases |events|
  {
    if events == [] {
      assert Chars(t.queue[..0]) == [];
    } else {
      var before, e := events[..|events| - 1], events[|events| - 1];
      InOrder(t, before);
      match e
      case Press(k) => PressInTransit(t.line, Run(t, before), Accepted(t, before), k);
      case Drain => DrainInTransit(t.line, Run(t, before), Accepted(t, before));
    }
  }

  /** A read of `cnt` characters under any interleaving of key presses and drains: it is served
      from the accepted keys in the order of their arrival, and resumed at most once. */
  lemma ReadSession(queue: seq<nat>, l: Line, caller: nat, pid: nat, cnt: int, events: seq<Event>)
    requires cnt != 0
    ensures var start := Terminal(queue, DoRead(l, caller, pid, cnt));
      var r, keys := Run(start, events), Accepted(start, events);
      |r.queue| <= |keys| && r.queue == keys[|keys| - |r.queue|..]
      && Served(start.line, r.line, Chars(keys[..|keys| - |r.queue|]), cnt)
  {
    var start := Terminal(queue, DoRead(l, caller, pid, cnt));
    InOrder(start, events);
    TransitServed(start.line, Run(start, events), Accepted(start, events), cnt);
  }

  lemma TransitServed(start: Line, r: Terminal, keys: seq<nat>, cnt: int)
    requires InTransit(start, r, keys) && start.left == cnt && start.trans == 0 && cnt != 0
    ensures Served(start, r.line, Chars(keys[..|keys| - |r.queue|]), cnt)
  {
    ReadServed(start, Chars(keys[..|keys| - |r.queue|]), cnt);
  }

  // ---- the terminal as task_tty.c keeps it ----

  /** The slot `i` places after `tail` on the ring. */
  function Slot(tail: nat, i: nat): nat {
    if tail + i < RING_SIZE then tail + i else tail + i - RING_SIZE
  }

  class TtyDevice {
    const ring: array<nat>
    var head: nat
    var tail: nat
    var cnt: nat
    var line: Line

    constructor ()
      ensures Valid() && fresh(ring) && Queue() == []
    {
      ring := new nat[RING_SIZE](_ => 0);
      head, tail, cnt := 0, 0, 0;
      line := Line(0, 0, 0, 0, map[], []);
    }

    ghost predicate Valid()
      reads this
    {
      ring.Length == RING_SIZE && tail < RING_SIZE && cnt <= RING_SIZE && head == Slot(tail, cnt)
    }

    /** The keys in the ring, oldest first. */
    ghost function Queue(): (q: seq<nat>)
      requires Valid()
      reads this, ring
      ensures |q| == cnt && forall i {:trigger q[i]} :: 0 <= i < cnt ==> q[i] == ring[Slot(tail, i)]
    {
      var n, t, r := cnt, tail, ring[..];
      seq(n, i requires 0 <= i < n => r[Slot(t, i)])
    }

    /** tty_key_enqueue: a key is dropped only when the ring is full. */
    method KeyEnqueue(key: nat)
      requires Valid()
      modifies this`head, this`cnt, ring
      ensures Valid() && Queue() == Enqueue(old(Queue()), key)
    {
      if cnt < RING_SIZE {
        ghost var q := Queue();
        ring[head] := key;
        head := head + 1;
        if head == RING_SIZE { head := 0; }
        cnt := cnt + 1;
        assert Queue() == q + [key];
      }
    }

    method TakeKey() returns (key: nat)
      requires Valid() && cnt > 0
      modifies this`tail, this`cnt
      ensures Valid() && [key] + Queue() == old(Queue())
    {
      ghost var q := Queue();
      key := ring[tail];
      tail := tail + 1;
      if tail == RING_SIZE { tail := 0; }
      cnt := cnt - 1;
      assert [key] + Queue() == q by {
        assert forall i :: 0 <= i < cnt ==> Slot(tail, i) == Slot(old(tail), i + 1);
      }
    }

    /** tty_dev_write: empties the ring into the line editor. */
    method DevWrite()
      requires Valid()
      modifies this`tail, this`cnt, this`line
      ensures Valid() && Queue() == [] && line == Feed(old(line), Chars(old(Queue())))
      ensures Terminal(Queue(), line) == Step(old(Terminal(Queue(), line)), Drain)
    {
      while cnt > 0
        invariant Valid()
        invariant Feed(line, Chars(Queue())) == Feed(old(line), Chars(old(Queue())))
      {
        FeedOne();
      }
    }

    /** One round: the oldest key leaves the ring and goes through the editor. */
    method FeedOne()
      requires Valid() && cnt > 0
      modifies this`tail, this`cnt, this`line
      ensures Valid() && cnt == old(cnt) - 1
      ensures Feed(line, Chars(Queue())) == Feed(old(line), Chars(old(Queue())))
    {
      var key := TakeKey();
      FeedFirst(line, key, Queue());
      PutChar(Char(key));
    }

    method PutChar(ch: int)
      modifies this`line
      ensures line == OneChar(old(line), ch)
    {
      if line.left != 0 {
        if Printable(ch) {
          line := line.(buf := line.buf[line.trans := ch]);
          line := line.(trans := line.trans + 1);
          line := line.(left := line.left - 1);
        } else if ch == BACKSPACE && line.trans > 0 {
          line := line.(trans := line.trans - 1);
          line := line.(left := line.left + 1);
        }
        if ch == NEWLINE || line.left == 0 {
          line := line.(sent := line.sent + [Resume(line.caller, line.pid, line.trans)]);
          line := line.(left := 0);
        }
      }
    }

    /** tty_do_read: the request is registered field by field and the caller suspended. From here
        the read is served as ReadServed says, whatever is in the ring. */
    method StartRead(caller: nat, pid: nat, n: int)
      requires Valid()
      modifies this`line
      ensures Valid() && Queue() == old(Queue())
      ensures line.left == n && line.trans == 0 && line.caller == caller && line.pid == pid
      ensures line.sent == old(line.sent) + [Suspend(caller, n)] && line == DoRead(old(line), caller, pid, n)
      ensures n != 0 ==> Served(line, Feed(line, Chars(Queue())), Chars(Queue()), n)
    {
      line := line.(caller := caller);
      line := line.(pid := pid);
      line := line.(buf := map[]);
      line := line.(left := n);
      line := line.(trans := 0);
      line := line.(sent := line.sent + [Suspend(caller, n)]);
      if n != 0 { ReadServed(line, Chars(Queue()), n); }
    }
  }
}
