/**
 * The plaintext packet-capture ring: variable-length, self-describing records
 * in one 64 KiB array that wraps by abandoning the bytes above `high`.
 */
module Pcap {
  import opened Bytes

  const RING_SIZE: nat := 0x1_0000
  const SNAPLEN: nat := 256
  const REC_HDR: nat := 16

  /** One frame handed to the capture, with the microsecond clock read for it. */
  datatype Frame = Frame(us: nat, data: seq<byte>)

  function Included(len: nat): nat {
    if len > SNAPLEN then SNAPLEN else len
  }

  /** A pcap record: ts_sec, ts_usec, incl_len, orig_len, then the snapped data. */
  function Encode(f: Frame): (rec: seq<byte>)
    requires |f.data| < 0x1_0000
    ensures |rec| == REC_HDR + Included(|f.data|)
  {
    Le32(f.us / 1000000 % 0x1_0000_0000) + Le32(f.us % 1000000) +
    Le32(Included(|f.data|)) + Le32(|f.data|) + f.data[..Included(|f.data|)]
  }

  /** What a pcap reader sees in one record. */
  datatype Packet = Packet(sec: word32, usec: word32, orig: word32, snap: seq<byte>)

  /** An independent pcap reader; `None` when the stream ends inside a record. */
  function Parse(s: seq<byte>): (r: Option<seq<Packet>>)
  {
    if s == [] then Some([])
    else if |s| < REC_HDR || |s| < REC_HDR + FromLe32(s, 8) then None
    else
      var end := REC_HDR + FromLe32(s, 8);
      var rest := Parse(s[end..]);
      if rest.None? then None
      else Some([Packet(FromLe32(s, 0), FromLe32(s, 4), FromLe32(s, 12), s[REC_HDR..end])] + rest.value)
  }

  /** What a reader should see of a frame. */
  function Seen(f: Frame): Packet
    requires |f.data| < 0x1_0000
  {
    Packet(f.us / 1000000 % 0x1_0000_0000, f.us % 1000000, |f.data|, f.data[..Included(|f.data|)])
  }

  ghost predicate Capturable(fs: seq<Frame>) {
    forall i :: 0 <= i < |fs| ==> 0 < |fs[i].data| < 0x1_0000
  }

  function SeenAll(fs: seq<Frame>): (ps: seq<Packet>)
    requires Capturable(fs)
  {
    seq(|fs|, i requires 0 <= i < |fs| => Seen(fs[i]))
  }

  function Stream(fs: seq<Frame>): (s: seq<byte>)
    requires Capturable(fs)
  {
    if fs == [] then [] else Encode(fs[0]) + Stream(fs[1..])
  }

  lemma StreamFirst(fs: seq<Frame>)
    requires Capturable(fs) && fs != []
    ensures Stream(fs) == Encode(fs[0]) + Stream(fs[1..])
  {
  }

  lemma {:induction false} StreamSnoc(fs: seq<Frame>, f: Frame)
    requires Capturable(fs) && 0 < |f.data| < 0x1_0000
    ensures Stream(fs + [f]) == Stream(fs) + Encode(f)
  {
    if fs == [] {
      assert fs + [f] == [f] && [f][1..] == [];
    } else {
      assert (fs + [f])[1..] == fs[1..] + [f];
      StreamSnoc(fs[1..], f);
    }
  }

  lemma {:induction false} StreamAppend(fs: seq<Frame>, gs: seq<Frame>)
    requires Capturable(fs) && Capturable(gs)
    ensures Stream(fs + gs) == Stream(fs) + Stream(gs)
  {
    if fs == [] {
      assert fs + gs == gs;
    } else {
      assert (fs + gs)[1..] == fs[1..] + gs;
      StreamAppend(fs[1..], gs);
    }
  }

  /** The header fields of a record are where a reader looks for them. */
  lemma EncodedHeader(f: Frame, s: seq<byte>)
    requires |f.data| < 0x1_0000
    requires Encode(f) <= s
    ensures |s| >= REC_HDR && |Encode(f)| == REC_HDR + Included(|f.data|)
    ensures FromLe32(s, 0) == f.us / 1000000 % 0x1_0000_0000
    ensures FromLe32(s, 4) == f.us % 1000000
    ensures FromLe32(s, 8) == Included(|f.data|)
    ensures FromLe32(s, 12) == |f.data|
    ensures s[REC_HDR..|Encode(f)|] == f.data[..Included(|f.data|)]
  {
    var e := Encode(f);
    assert forall i, j :: 0 <= i <= j <= |e| ==> s[i..j] == e[i..j];
    forall v: word32 { Le32RoundTrip(v); }
    assert e[0..4] == Le32(f.us / 1000000 % 0x1_0000_0000);
    FromLe32InContext(s, 0, e[0..4]);
    assert e[4..8] == Le32(f.us % 1000000);
    FromLe32InContext(s, 4, e[4..8]);
    assert e[8..12] == Le32(Included(|f.data|));
    FromLe32InContext(s, 8, e[8..12]);
    assert e[12..16] == Le32(|f.data|);
    FromLe32InContext(s, 12, e[12..16]);
  }

  /** A reader takes the record of a frame off the front of a stream. */
  lemma ParseRecord(f: Frame, s: seq<byte>)
    requires 0 < |f.data| < 0x1_0000 && Encode(f) <= s
    ensures var rest := Parse(s[|Encode(f)|..]);
            Parse(s) == if rest.None? then None else Some([Seen(f)] + rest.value)
  {
    hide Encode, FromLe32, Included;
    EncodedHeader(f, s);
    assert s != [];
    assert Packet(FromLe32(s, 0), FromLe32(s, 4), FromLe32(s, 12), s[REC_HDR..|Encode(f)|]) == Seen(f);
  }

  /** Round trip: a reader recovers exactly the frames whose records were dumped. */
  lemma {:induction false} ParseStream(fs: seq<Frame>)
    requires Capturable(fs)
    ensures Parse(Stream(fs)) == Some(SeenAll(fs))
  {
    if fs == [] {
      assert SeenAll(fs) == [];
    } else {
      hide Parse, Encode, Seen, Stream;
      var s := Stream(fs);
      assert s == Encode(fs[0]) + Stream(fs[1..]) by { StreamFirst(fs); }
      ParseRecord(fs[0], s);
      assert s[|Encode(fs[0])|..] == Stream(fs[1..]);
      ParseStream(fs[1..]);
      assert SeenAll(fs) == [Seen(fs[0])] + SeenAll(fs[1..]);
    }
  }

  /** The registers and storage of the ring, with the frames each span stands for. */
  datatype View = View(mem: seq<byte>, head: nat, tail: nat, high: nat, wrapped: bool,
                       history: seq<Frame>, upper: seq<Frame>, lower: seq<Frame>)
  {
    /** The spans are whole records of a suffix of the history, and they do not overlap. */
    ghost predicate Shape() {
      && |mem| == RING_SIZE
      && Capturable(history) && Capturable(upper) && Capturable(lower)
      && IsSuffix(upper + lower, history)
      && head <= RING_SIZE
      && if wrapped then
           head <= tail < high <= RING_SIZE && mem[tail..high] == Stream(upper) && mem[..head] == Stream(lower)
         else
           tail == 0 && lower == [] && mem[..head] == Stream(upper)
    }

    /** The ring after wrapping: the newest span becomes the top one and writing restarts at 0. */
    function Wrapped(): View {
      this.(tail := 0, high := head, head := 0, wrapped := true,
            upper := if wrapped then lower else upper, lower := [])
    }

    /** Nothing is lost while everything fits; afterwards at most 542 bytes go unused. */
    ghost predicate Inv() {
      && Shape()
      && (history != [] ==> upper + lower != [])
      && if |Stream(history)| <= RING_SIZE then
           !wrapped && upper == history
         else
           if wrapped then high >= RING_SIZE - 271 && tail <= head + 271 else head >= RING_SIZE - 542
    }
  }

  /**
   * What a dump promises about the frames logged so far: a reader parses it to the
   * end, finds exactly the newest frames in order, misses none while they all fit,
   * and otherwise still gets at least RING_SIZE - 542 bytes of them.
   */
  ghost predicate FaithfulDump(log: seq<Frame>, dump: seq<byte>)
    requires Capturable(log)
  {
    && Parse(dump).Some?
    && IsSuffix(Parse(dump).value, SeenAll(log))
    && (log != [] ==> Parse(dump).value != [])
    && (|Stream(log)| <= RING_SIZE ==> Parse(dump).value == SeenAll(log))
    && (|Stream(log)| > RING_SIZE ==> |dump| >= RING_SIZE - 542)
  }

  lemma DumpIsFaithful(v: View, dump: seq<byte>)
    requires v.Inv()
    requires dump == if v.wrapped then v.mem[v.tail..v.high] + v.mem[..v.head] else v.mem[v.tail..v.head] + []
    ensures FaithfulDump(v.history, dump)
  {
    hide Parse, Encode, Stream, SeenAll, IsSuffix;
    var kept := v.upper + v.lower;
    StreamAppend(v.upper, v.lower);
    assert dump == Stream(kept) by { EmptyStream(); }
    ParseStream(kept);
    SeenSuffix(kept, v.history);
    assert v.lower == [] ==> kept == v.upper;
  }

  lemma EmptyStream()
    ensures Stream([]) == []
  {
  }

  /** What a reader sees of the newest frames is the newest of what it would see of all. */
  lemma SeenSuffix(kept: seq<Frame>, log: seq<Frame>)
    requires Capturable(kept) && Capturable(log) && IsSuffix(kept, log)
    ensures IsSuffix(SeenAll(kept), SeenAll(log)) && |SeenAll(kept)| == |kept|
  {
    assert SeenAll(kept) == SeenAll(log)[|log| - |kept|..];
  }

  /** Wrapping abandons everything above the head and keeps the rest as the top span. */
  lemma WrapAround(v: View)
    requires v.Inv() && v.head > RING_SIZE - 272
    ensures v.wrapped ==> v.tail >= v.head
    ensures v.Wrapped().Shape()
    ensures !v.wrapped ==> v.tail == 0
  {
    if v.wrapped {
      assert (v.upper + v.lower)[|v.upper|..] == v.lower + [];
    }
  }

  /** The oldest record's own header gives its length, and the next record starts right after it. */
  lemma OldestLength(v: View)
    requires v.Shape() && v.wrapped
    ensures v.upper != [] && v.tail + REC_HDR < v.high
    ensures FromLe32(v.mem, v.tail + 8) == Included(|v.upper[0].data|)
    ensures v.tail + |Encode(v.upper[0])| <= v.high
    ensures v.mem[v.tail + |Encode(v.upper[0])|..v.high] == Stream(v.upper[1..])
  {
    hide Encode, FromLe32, IsSuffix;
    var s := v.mem[v.tail..v.high];
    assert |s| > 0;
    assert v.upper != [] by { StreamOfNone(v.upper); }
    assert s == Encode(v.upper[0]) + Stream(v.upper[1..]);
    EncodedHeader(v.upper[0], s);
    HeaderInPlace(v.mem, v.tail, v.high);
    assert v.mem[v.tail + |Encode(v.upper[0])|..v.high] == s[|Encode(v.upper[0])|..];
  }

  lemma StreamOfNone(fs: seq<Frame>)
    requires Capturable(fs)
    ensures fs == [] ==> Stream(fs) == []
  {
  }

  lemma HeaderInPlace(mem: seq<byte>, lo: nat, hi: nat)
    requires lo + REC_HDR <= hi <= |mem|
    ensures FromLe32(mem, lo + 8) == FromLe32(mem[lo..hi], 8)
  {
    var s := mem[lo..hi];
    assert s[8] == mem[lo + 8] && s[9] == mem[lo + 9] && s[10] == mem[lo + 10] && s[11] == mem[lo + 11];
  }

  /** Dropping the oldest record: either the top span still holds records or the ring is linear again. */
  lemma DropOldest(v: View)
    requires v.Shape() && v.wrapped
    ensures v.upper != []
    ensures var t := v.tail + |Encode(v.upper[0])|;
            if t < v.high then v.(tail := t, upper := v.upper[1..]).Shape()
            else t == v.high && v.(tail := 0, high := v.head, wrapped := false, upper := v.lower, lower := []).Shape()
  {
    hide Encode, Stream, IsSuffix, Included, FromLe32;
    OldestLength(v);
    var t := v.tail + |Encode(v.upper[0])|;
    if t < v.high {
      SuffixTail(v.upper, v.lower, v.history);
    } else {
      StreamHasAll(v.upper[1..]);
      SuffixLower(v.upper, v.lower, v.history);
    }
  }

  lemma SuffixTail(a: seq<Frame>, b: seq<Frame>, t: seq<Frame>)
    requires a != [] && IsSuffix(a + b, t)
    ensures IsSuffix(a[1..] + b, t)
  {
    assert (a + b)[1..] == a[1..] + b;
  }

  lemma SuffixLower(a: seq<Frame>, b: seq<Frame>, t: seq<Frame>)
    requires IsSuffix(a + b, t)
    ensures IsSuffix(b + [], t)
  {
    assert (a + b)[|a|..] == b + [];
  }

  /** Every record takes up space. */
  lemma StreamHasAll(fs: seq<Frame>)
    requires Capturable(fs)
    ensures Stream(fs) == [] ==> fs == []
  {
    if fs != [] {
      assert |Encode(fs[0])| > 0;
    }
  }

  lemma SuffixSnoc<T>(s: seq<T>, t: seq<T>, x: T)
    requires IsSuffix(s, t)
    ensures IsSuffix(s + [x], t + [x])
  {
    assert (t + [x])[|t| - |s|..] == t[|t| - |s|..] + [x];
  }

  /** Writing a record below the tail extends the span at the bottom. */
  lemma WriteWrapped(v: View, f: Frame, mem: seq<byte>)
    requires v.Shape() && v.wrapped && 0 < |f.data| < 0x1_0000
    requires v.head + |Encode(f)| <= v.tail && |mem| == RING_SIZE
    requires mem[..v.head] == v.mem[..v.head] && mem[v.tail..v.high] == v.mem[v.tail..v.high]
    requires mem[v.head..v.head + |Encode(f)|] == Encode(f)
    ensures v.(mem := mem, head := v.head + |Encode(f)|, history := v.history + [f], lower := v.lower + [f]).Shape()
  {
    hide Encode, Stream, IsSuffix;
    assert mem[..v.head + |Encode(f)|] == mem[..v.head] + Encode(f);
    StreamSnoc(v.lower, f);
    SuffixSnoc(v.upper + v.lower, v.history, f);
    assert (v.upper + v.lower) + [f] == v.upper + (v.lower + [f]);
  }

  /** Writing a record at the head of a linear ring extends its one span. */
  lemma WriteLinear(v: View, f: Frame, mem: seq<byte>)
    requires v.Shape() && !v.wrapped && 0 < |f.data| < 0x1_0000
    requires v.head + |Encode(f)| <= RING_SIZE == |mem|
    requires mem[..v.head] == v.mem[..v.head]
    requires mem[v.head..v.head + |Encode(f)|] == Encode(f)
    ensures v.(mem := mem, head := v.head + |Encode(f)|, history := v.history + [f], upper := v.upper + [f]).Shape()
  {
    hide Encode, Stream, IsSuffix;
    assert mem[..v.head + |Encode(f)|] == mem[..v.head] + Encode(f);
    StreamSnoc(v.upper, f);
    assert v.upper + v.lower == v.upper;
    SuffixSnoc(v.upper, v.history, f);
    assert (v.upper + [f]) + [] == v.upper + [f];
  }

  /** A span above the written octets is as it was. */
  lemma SameSpan(m: seq<byte>, n: seq<byte>, from: nat, lo: nat, hi: nat)
    requires |m| == |n| && from <= lo <= hi <= |m| && n[from..] == m[from..]
    ensures n[lo..hi] == m[lo..hi]
  {
    forall i | lo <= i < hi ensures n[i] == m[i] {
      assert n[i] == n[from..][i - from] == m[from..][i - from];
    }
  }

  lemma ShapeBounds(v: View)
    requires v.Shape()
    ensures |v.mem| == RING_SIZE && v.head <= RING_SIZE && (v.wrapped ==> v.head <= v.tail < v.high <= RING_SIZE)
  {
  }

  /** Before the first wrap the top mark is not looked at. */
  lemma HighIsFree(v: View, high: nat)
    requires v.Shape() && !v.wrapped
    ensures v.(high := high).Shape()
  {
  }

  /** The ring itself. */
  class Ring {
    const ring: array<byte>
    var head: nat     // next write offset
    var tail: nat     // oldest record offset
    var high: nat     // valid bytes end here when wrapped
    var wrapped: bool // head has lapped the tail
    var enabled: bool
    var paused: bool
    var packets: word32

    ghost var history: seq<Frame> // every frame captured since the last clear
    ghost var upper: seq<Frame>   // the frames stored from `tail` upwards
    ghost var lower: seq<Frame>   // when wrapped, the frames stored from 0 to `head`

    ghost function Abs(): View
      reads this, ring
    {
      View(ring[..], head, tail, high, wrapped, history, upper, lower)
    }

    constructor ()
      ensures Abs().Inv() && fresh(ring)
      ensures history == [] && !enabled && !paused
    {
      ring := new byte[RING_SIZE](_ => 0);
      head, tail, high := 0, 0, 0;
      wrapped, enabled, paused := false, false, false;
      packets := 0;
      history, upper, lower := [], [], [];
    }

    /** The length of the record stored at `off`, read back from its own header. */
    function RecLenAt(off: nat): nat
      requires off + REC_HDR <= ring.Length
      reads ring
    {
      REC_HDR + FromLe32(ring[..], off + 8)
    }

    /** Give up the oldest record; the ring becomes linear when the top span runs out. */
    method DropOldestRecord()
      requires Abs().Shape() && wrapped
      modifies this`tail, this`high, this`wrapped, this`upper, this`lower
      ensures Abs().Shape()
      ensures wrapped ==> high == old(high) && old(tail) < tail <= old(tail) + 272
      ensures !wrapped ==> old(high) <= old(tail) + 272
    {
      ghost var v := Abs();
      OldestLength(v);
      DropOldest(v);
      var next := tail + RecLenAt(tail);
      if next >= high {
        tail := 0;
        high := head;
        wrapped := false;
        upper, lower := lower, [];
        assert Abs() == v.(tail := 0, high := v.head, wrapped := false, upper := v.lower, lower := []);
      } else {
        tail := next;
        upper := upper[1..];
        assert Abs() == v.(tail := next, upper := v.upper[1..]);
      }
    }

    /** Advance `tail` past every record that intersects [from, from + need). */
    method Evict(from: nat, need: nat)
      requires Abs().Shape() && wrapped && from == head && 0 < need <= REC_HDR + SNAPLEN
      modifies this`tail, this`high, this`wrapped, this`upper, this`lower
      ensures Abs().Shape()
      ensures wrapped ==> high == old(high) && head + need <= tail
      ensures wrapped ==> tail <= old(tail) || tail <= head + need + 271
      ensures !wrapped ==> old(high) <= head + need + 271
    {
      while wrapped
        invariant Abs().Shape()
        invariant wrapped ==> high == old(high)
        invariant wrapped ==> tail <= old(tail) || tail <= head + need + 271
        invariant !wrapped ==> old(high) <= head + need + 271
        decreases wrapped, high - tail
      {
        OldestLength(Abs());
        if tail >= from + need || tail + RecLenAt(tail) <= from {
          break;
        }
        DropOldestRecord();
      }
    }

    /** Wrap when the record would straddle the end, then evict whatever it would overwrite. */
    method MakeRoom(need: nat)
      requires Abs().Inv() && REC_HDR < need <= REC_HDR + SNAPLEN
      modifies this`head, this`tail, this`high, this`wrapped, this`upper, this`lower
      ensures Abs().Shape() && head + need <= RING_SIZE
      ensures |Stream(history)| + need <= RING_SIZE ==> !wrapped && upper == history
      ensures |Stream(history)| + need > RING_SIZE && wrapped ==>
          high >= RING_SIZE - 271 && head + need <= tail <= head + need + 271
      ensures |Stream(history)| + need > RING_SIZE && !wrapped ==> head + need >= RING_SIZE - 542
    {
      hide IsSuffix, Encode;
      ghost var v := Abs();
      if head + need > RING_SIZE {
        WrapAround(v);
        if wrapped {
          if tail >= head {
            tail := 0;
            upper, lower := lower, [];
          }
        }
        high := head;
        head := 0;
        wrapped := true;
        assert Abs() == v.Wrapped();
      }
      if wrapped {
        Evict(head, need);
      }
    }

    /** Append one frame, or do nothing when capture is off, paused or the frame is empty. */
    method Capture(f: Frame)
      requires Abs().Inv() && |f.data| < 0x1_0000
      modifies this, ring
      ensures Abs().Inv()
      ensures enabled == old(enabled) && paused == old(paused)
      ensures history == if enabled && !paused && f.data != [] then old(history) + [f] else old(history)
    {
      hide Encode, IsSuffix;
      if !enabled || paused || |f.data| == 0 {
        return;
      }
      var need := REC_HDR + Included(|f.data|);
      StreamSnoc(history, f);
      MakeRoom(need);
      Store(f, need);
    }

    /** Copy octets to the head without moving it. */
    method Write(rec: seq<byte>)
      requires head + |rec| <= ring.Length
      modifies ring
      ensures ring[..head] == old(ring[..head]) && ring[head..head + |rec|] == rec
      ensures ring[head + |rec|..] == old(ring[head + |rec|..])
    {
      forall i | 0 <= i < |rec| {
        ring[head + i] := rec[i];
      }
    }

    method Store(f: Frame, need: nat)
      requires Abs().Shape() && 0 < |f.data| < 0x1_0000 && need == |Encode(f)|
      requires head + need <= if wrapped then tail else RING_SIZE
      modifies this`head, this`high, this`packets, this`history, this`upper, this`lower, ring
      ensures Abs().Shape()
      ensures head == old(head) + need && (wrapped ==> high == old(high))
      ensures history == old(history) + [f]
      ensures if wrapped then upper == old(upper) && lower == old(lower) + [f]
              else upper == old(upper) + [f] && lower == old(lower)
    {
      hide Stream, IsSuffix, Encode, Capturable, View.Shape;
      ghost var v := Abs();
      ShapeBounds(v);
      Write(Encode(f));
      history := history + [f];
      head := head + need;
      if wrapped {
        SameSpan(v.mem, ring[..], head, tail, high);
        WriteWrapped(v, f, ring[..]);
        lower := lower + [f];
      } else {
        WriteLinear(v, f, ring[..]);
        upper := upper + [f];
        ghost var w := Abs();
        if head > high {
          high := head;
          HighIsFree(w, high);
        }
      }
      packets := (packets + 1) % 0x1_0000_0000;
    }

    method SetEnabled(on: bool)
      requires Abs().Inv()
      modifies this`enabled
      ensures enabled == on && Abs().Inv()
    {
      hide Stream, IsSuffix;
      enabled := on;
    }

    method Clear()
      requires Abs().Inv()
      modifies this`head, this`tail, this`high, this`wrapped, this`packets, this`history, this`upper, this`lower
      ensures Abs().Inv() && history == [] && packets == 0
    {
      hide Encode;
      head, tail, high := 0, 0, 0;
      wrapped := false;
      packets := 0;
      history, upper, lower := [], [], [];
      assert upper + lower == [];
    }

    method Resume()
      requires Abs().Inv()
      modifies this`paused
      ensures !paused && Abs().Inv()
    {
      hide Stream, IsSuffix;
      paused := false;
    }

    /** Hold the ring still and hand out its two spans, oldest first. */
    method Freeze() returns (a: seq<byte>, b: seq<byte>)
      requires Abs().Inv()
      modifies this`paused
      ensures paused && Abs().Inv()
      ensures FaithfulDump(history, a + b)
    {
      hide FaithfulDump, Stream;
      paused := true;
      if wrapped {
        a, b := ring[tail..high], ring[..head];
      } else {
        a, b := ring[tail..head], [];
      }
      DumpIsFaithful(Abs(), a + b);
    }

    /** The byte count shown to the user is the size of the dump. */
    method Stats() returns (n: word32, used: nat)
      requires Abs().Inv()
      ensures n == packets && used == |Stream(upper + lower)| <= RING_SIZE
    {
      hide Stream, Encode, IsSuffix, Capturable;
      n := packets;
      used := if wrapped then high - tail + head else head - tail;
      StreamAppend(upper, lower);
      assert upper + [] == upper;
      assert wrapped ==> |ring[tail..high]| == high - tail && |ring[..head]| == head;
    }
  }

  /** Everything a caller can do to the ring. */
  datatype Op = OpCapture(f: Frame) | OpClear | OpEnable(on: bool) | OpFreeze | OpResume

  /** The ring as its users think of it: a log that `clear` empties. */
  datatype Log = Log(enabled: bool, paused: bool, frames: seq<Frame>)

  function Apply(l: Log, op: Op): Log {
    match op
    case OpCapture(f) => if l.enabled && !l.paused && f.data != [] then l.(frames := l.frames + [f]) else l
    case OpClear => l.(frames := [])
    case OpEnable(on) => l.(enabled := on)
    case OpFreeze => l.(paused := true)
    case OpResume => l.(paused := false)
  }

  function ApplyAll(ops: seq<Op>): Log {
    if ops == [] then Log(false, false, []) else Apply(ApplyAll(ops[..|ops| - 1]), ops[|ops| - 1])
  }

  /** After any sequence of calls, the frozen spans are a faithful dump of the log. */
  method Replay(ops: seq<Op>) returns (a: seq<byte>, b: seq<byte>)
    requires forall i :: 0 <= i < |ops| && ops[i].OpCapture? ==> |ops[i].f.data| < 0x1_0000
    ensures Capturable(ApplyAll(ops).frames)
    ensures FaithfulDump(ApplyAll(ops).frames, a + b)
  {
    hide FaithfulDump, Stream, View.Inv;
    var r := new Ring();
    for i := 0 to |ops|
      invariant fresh(r) && fresh(r.ring) && r.Abs().Inv()
      invariant Capturable(r.history)
      invariant ApplyAll(ops[..i]) == Log(r.enabled, r.paused, r.history)
    {
      assert ops[..i + 1][..i] == ops[..i];
      match ops[i] {
        case OpCapture(f) => r.Capture(f);
        case OpClear => r.Clear();
        case OpEnable(on) => r.SetEnabled(on);
        case OpFreeze => var _, _ := r.Freeze();
        case OpResume => r.Resume();
      }
    }
    assert ops[..|ops|] == ops;
    a, b := r.Freeze();
  }
}
