/**
 The connection buffer: one byte vector laid out as
     / discarded / readable / writable /
 with a read index and a write index.  Compaction and growth happen in place;
 the abstract value is the plain byte queue vec[readIndex..writeIndex].
 */
module Buffers {
  import opened Common

  /** Capacity and indices: everything about a buffer except its bytes. */
  datatype Shape = Shape(capacity: nat, read: nat, write: nat) {
    predicate Valid() { read <= write <= capacity }

    function Readable(): int { write - read }

    /** Fewer than len bytes fit behind write and fewer than len bytes are discarded in front. */
    predicate MustGrow(len: nat) {
      capacity - write < len && read < len
    }

    /** Growth is bounded by the bytes asked for plus the bytes kept. */
    lemma GrowthBound(len: nat)
      requires Valid()
      ensures WithRoom(len).capacity <= Max(capacity, 4 * len + 2 * Readable())
    {
    }

    /** The layout after room for len more bytes has been made. */
    function WithRoom(len: nat): (r: Shape)
      requires Valid()
      ensures r.Valid() && r.Readable() == Readable()
      ensures r.capacity - r.write >= len
    {
      if capacity - write >= len then this
      else Shape(if MustGrow(len) then Max(2 * capacity, len + Readable()) else capacity, 0, Readable())
    }

    function Appended(len: nat): (r: Shape)
      requires Valid()
      ensures r.Valid() && r.Readable() == Readable() + len
    {
      var r := WithRoom(len);
      r.(write := r.write + len)
    }

    function Retrieved(len: nat): Shape
      requires Valid() && len <= Readable()
    {
      this.(read := read + len)
    }
  }

  /** A buffer as a byte queue: what append and retrieve mean to the rest of the library. */
  datatype Queue = Queue(layout: Shape, bytes: string)

  datatype Op = DoAppend(bytes: string) | DoRetrieve(len: nat) | DoRetrieveAll

  /** None: the caller broke retrieve's demand that len bytes are readable. */
  function Step(q: Queue, op: Op): Option<Queue>
    requires q.layout.Valid() && |q.bytes| == q.layout.Readable()
  {
    match op
    case DoAppend(s) => Some(Queue(q.layout.Appended(|s|), q.bytes + s))
    case DoRetrieve(len) =>
      if len <= |q.bytes| then Some(Queue(q.layout.Retrieved(len), q.bytes[len..])) else None
    case DoRetrieveAll => Some(Queue(q.layout.Retrieved(|q.bytes|), ""))
  }

  /** One read(2): the bytes asked for, its result, and whether a failure was EINTR or EWOULDBLOCK. */
  datatype Reading = Reading(asked: nat, n: int, blocked: bool) {
    predicate EndOfFile() { n == 0 }

    predicate Failed() { n < 0 && !blocked }
  }

  /** A non-blocking socket: the bytes that will still arrive, whether the peer ends there, and the reads so far. */
  class Socket {
    var incoming: string
    const ended: bool
    ghost var readings: seq<Reading>

    constructor (bytes: string, peerEnds: bool)
      ensures incoming == bytes && ended == peerEnds && readings == []
    {
      incoming, ended, readings := bytes, peerEnds, [];
    }

    /** read(2): a failure, or at most max of the bytes that will still arrive; none only at the end of file. */
    method Read(max: nat) returns (n: int, blocked: bool, bytes: string)
      modifies this
      ensures -1 <= n <= max && readings == old(readings) + [Reading(max, n, blocked)]
      ensures n < 0 ==> bytes == "" && incoming == old(incoming)
      ensures n >= 0 ==> |bytes| == n && old(incoming) == bytes + incoming
      ensures n == 0 && max > 0 ==> ended && incoming == ""
    {
      n, blocked := *, *;
      bytes := "";
      if n < 0 || n > max || n > |incoming| || (n == 0 && max > 0 && !(ended && incoming == "")) {
        n := -1;
      } else {
        bytes, incoming := incoming[..n], incoming[n..];
      }
      readings := readings + [Reading(max, n, blocked)];
    }
  }

  /** str occurs in text at position i. */
  predicate OccursAt(text: string, str: string, i: nat) {
    i + |str| <= |text| && text[i..i + |str|] == str
  }

  /** The position of the first occurrence of str in text at or after position i (memmem). */
  function FirstOccurrence(text: string, str: string, i: nat := 0): (r: Option<nat>)
    ensures r.None? ==> forall k :: i <= k ==> !OccursAt(text, str, k)
    ensures r.Some? ==> i <= r.value && OccursAt(text, str, r.value)
    ensures r.Some? ==> forall k :: i <= k < r.value ==> !OccursAt(text, str, k)
    decreases |text| - i
  {
    if i + |str| > |text| then None
    else if OccursAt(text, str, i) then Some(i)
    else FirstOccurrence(text, str, i + 1)
  }

  lemma SearchFrom(text: string, str: string, i: nat)
    ensures FirstOccurrence(text, str, i) ==
            if i + |str| > |text| then None
            else if text[i..i + |str|] == str then Some(i) else FirstOccurrence(text, str, i + 1)
  {
  }

  class Buffer {
    var vec: array<char>
    var readIndex: nat
    var writeIndex: nat

    ghost predicate Valid()
      reads this
    {
      readIndex <= writeIndex <= vec.Length
    }

    ghost function Layout(): Shape
      reads this
    {
      Shape(vec.Length, readIndex, writeIndex)
    }

    /** The readable bytes: the abstract value of the buffer. */
    ghost function Contents(): (s: string)
      requires Valid()
      reads this, vec
      ensures |s| == Layout().Readable()
    {
      vec[readIndex..writeIndex]
    }

    ghost function Abs(): Queue
      requires Valid()
      reads this, vec
    {
      Queue(Layout(), Contents())
    }

    constructor (n: nat)
      ensures Valid() && fresh(vec)
      ensures Abs() == Queue(Shape(n, 0, 0), "")
    {
      vec := new char[n](_ => NUL);
      readIndex, writeIndex := 0, 0;
    }

    function ReadableBytes(): nat
      requires Valid()
      reads this
    {
      writeIndex - readIndex
    }

    /** vec_.resize(newSize): the same bytes, then zeroes. */
    method Resize(newSize: nat)
      requires Valid() && newSize >= vec.Length
      modifies this`vec
      ensures fresh(vec) && vec.Length == newSize
      ensures Valid() && Contents() == old(Contents())
    {
      var bigger := new char[newSize](i reads this, vec => if 0 <= i < vec.Length then vec[i] else NUL);
      assert bigger[readIndex..writeIndex] == vec[readIndex..writeIndex];
      vec := bigger;
    }

    /**
     memcpy(&vec_[0], &vec_[readIndex_], readableBytes()), byte by byte from the front.
     The two ranges may overlap; copying forwards still moves every readable byte intact.
     */
    method MoveReadableToFront()
      requires Valid()
      modifies vec
      ensures vec[..ReadableBytes()] == old(Contents())
    {
      var n := ReadableBytes();
      for i := 0 to n
        invariant vec[..i] == old(vec[readIndex..readIndex + i])
        invariant forall k :: i <= k < vec.Length ==> vec[k] == old(vec[k])
      {
        vec[i] := vec[readIndex + i];
      }
    }

    /** The block that append and readFromSocket share: reuse the discarded space or grow, then compact. */
    method MakeRoom(len: nat)
      requires Valid()
      modifies this, vec
      ensures Valid() && (vec == old(vec) || fresh(vec))
      ensures Layout() == old(Layout()).WithRoom(len)
      ensures Contents() == old(Contents())
    {
      if vec.Length - writeIndex < len {
        if readIndex < len {
          Resize(Max(vec.Length * 2, len + ReadableBytes()));
        }
        if ReadableBytes() > 0 {
          MoveReadableToFront();
        }
        writeIndex := ReadableBytes();
        readIndex := 0;
      }
    }

    /** memcpy(&vec_[writeIndex_], s, len) and the advance of writeIndex_. */
    method Fill(s: string)
      requires Valid() && |s| <= vec.Length - writeIndex
      modifies this`writeIndex, vec
      ensures Valid()
      ensures Layout() == old(Layout()).(write := old(writeIndex) + |s|)
      ensures Contents() == old(Contents()) + s
    {
      for i := 0 to |s|
        invariant Layout() == old(Layout())
        invariant forall k :: 0 <= k < i ==> vec[writeIndex + k] == s[k]
        invariant forall k :: 0 <= k < writeIndex ==> vec[k] == old(vec[k])
      {
        vec[writeIndex + i] := s[i];
      }
      FilledBehind(old(vec[..]), vec[..], readIndex, writeIndex, s);
      writeIndex := writeIndex + |s|;
    }

    method Append(s: string)
      requires Valid()
      modifies this, vec
      ensures Valid() && (vec == old(vec) || fresh(vec))
      ensures Step(old(Abs()), DoAppend(s)) == Some(Abs()) && Contents() == old(Contents()) + s
    {
      MakeRoom(|s|);
      Fill(s);
    }

    /** The assertion in the code makes len <= readableBytes() a demand on the caller. */
    method Retrieve(len: nat) returns (start: nat)
      requires Valid() && len <= ReadableBytes()
      modifies this`readIndex
      ensures Valid() && start == old(readIndex)
      ensures Step(old(Abs()), DoRetrieve(len)) == Some(Abs()) && Contents() == old(Contents())[len..]
    {
      start := readIndex;
      readIndex := readIndex + len;
    }

    method RetrieveAll() returns (start: nat)
      requires Valid()
      modifies this`readIndex
      ensures Valid() && start == old(readIndex)
      ensures Step(old(Abs()), DoRetrieveAll) == Some(Abs()) && Contents() == "" && readIndex == writeIndex
    {
      start := Retrieve(ReadableBytes());
    }

    /** memmem over the readable bytes only; the answer is an absolute index into vec. */
    method FindStr(str: string) returns (r: Option<nat>)
      requires Valid()
      ensures r.None? <==> FirstOccurrence(Contents(), str).None?
      ensures r.Some? ==> FirstOccurrence(Contents(), str) == Some(r.value - readIndex)
    {
      hide FirstOccurrence;
      var i := 0;
      while i + |str| <= ReadableBytes()
        invariant FirstOccurrence(Contents(), str) == FirstOccurrence(Contents(), str, i)
      {
        SearchFrom(Contents(), str, i);
        SliceOfSlice(vec[..], readIndex, writeIndex, i, i + |str|);
        if vec[readIndex + i..readIndex + i + |str|] == str {
          return Some(readIndex + i);
        }
        i := i + 1;
      }
      SearchFrom(Contents(), str, i);
      r := None;
    }

    /** Makes room for max bytes and issues one read into it. */
    method ReadOnce(s: Socket, max: nat) returns (n: int, blocked: bool, ghost bytes: string)
      requires Valid()
      modifies this, vec, s
      ensures Valid() && (vec == old(vec) || fresh(vec))
      ensures -1 <= n <= max && |bytes| == Max(n, 0)
      ensures s.readings == old(s.readings) + [Reading(max, n, blocked)]
      ensures old(s.incoming) == bytes + s.incoming
      ensures n == 0 && max > 0 ==> s.ended && s.incoming == ""
      ensures Contents() == old(Contents()) + bytes
      ensures vec.Length <= Max(old(vec.Length), 4 * max + 2 * |old(Contents())|)
    {
      Layout().GrowthBound(max);
      MakeRoom(max);
      var chunk;
      n, blocked, chunk := s.Read(max);
      bytes := chunk;
      Fill(chunk);
    }

    /**
     Reads until the first short or failing read, doubling the request each time.
     readings are the reads issued, taken the bytes they brought; all reads but the last were full.
     */
    method ReadFromSocket(s: Socket, maxBytes: nat := 4096)
      returns (r: int, ghost taken: string, ghost readings: seq<Reading>)
      requires Valid() && maxBytes > 0
      modifies this, vec, s
      ensures Valid() && (vec == old(vec) || fresh(vec))
      // what arrived is appended, in order, and nothing else is touched
      ensures old(s.incoming) == taken + s.incoming && s.readings == old(s.readings) + readings
      ensures Contents() == old(Contents()) + taken
      // d full reads take maxBytes * (2^d - 1) bytes, and then a read comes back short or fails
      ensures FullReads(maxBytes, readings)
      ensures var last := readings[|readings| - 1]; |taken| == last.asked - maxBytes + Max(last.n, 0)
      // the result tells about the first read, and only about its kind
      ensures r == 0 <==> readings[0].EndOfFile()
      ensures r < 0 <==> readings[0].Failed()
      ensures r < 0 ==> r == -1
      ensures r > 0 ==> r == if readings[0].n < 0 then 1 else readings[0].n
      ensures readings[0].EndOfFile() ==> s.ended && s.incoming == "" && taken == ""
      // memory stays proportional to the backlog
      ensures vec.Length <= Max(old(vec.Length), 4 * readings[|readings| - 1].asked + 2 * |Contents()|)
      ensures vec.Length <= Max(old(vec.Length), 6 * |Contents()| + 4 * maxBytes)
      decreases |s.incoming|
    {
      hide Max, Shape.Readable;
      ghost var before, kept := vec.Length, |Contents()|;
      var n, blocked, bytes := ReadOnce(s, maxBytes);
      MaxOf(n, 0);
      ghost var between := vec.Length;
      taken, readings := bytes, [Reading(maxBytes, n, blocked)];
      r := n;
      if n < 0 {
        r := if blocked then 1 else n;
      } else if n == maxBytes {
        var _, more, deeper := ReadFromSocket(s, 2 * maxBytes);
        MoreReads(maxBytes, Reading(maxBytes, n, blocked), deeper);
        taken, readings := bytes + more, readings + deeper;
      }
      ghost var last := readings[|readings| - 1];
      FullReadsGrow(maxBytes, readings);
      MaxOf(last.n, 0);
      StillBounded(before, between, vec.Length, maxBytes, last.asked, kept, kept + |taken|);
    }
  }

  /** Reads of first, 2 * first, 4 * first, ... bytes, all full but the last one. */
  predicate FullReads(first: nat, readings: seq<Reading>)
    decreases |readings|
  {
    && readings != [] && readings[0].asked == first
    && if |readings| == 1 then readings[0].n < first
       else readings[0].n == first && FullReads(2 * first, readings[1..])
  }

  lemma MoreReads(first: nat, r: Reading, more: seq<Reading>)
    requires r.asked == r.n == first && FullReads(2 * first, more)
    ensures FullReads(first, [r] + more) && ([r] + more)[|more|] == more[|more| - 1]
  {
    assert ([r] + more)[1..] == more;
  }

  lemma {:induction false} FullReadsGrow(first: nat, readings: seq<Reading>)
    requires FullReads(first, readings)
    ensures readings[|readings| - 1].asked >= first
    decreases |readings|
  {
    if |readings| > 1 {
      FullReadsGrow(2 * first, readings[1..]);
    }
  }

  lemma MaxOf(a: int, b: int)
    ensures Max(a, b) == if a < b then b else a
  {
  }

  /** Two growth bounds in a row. */
  lemma StillBounded(before: nat, between: nat, after: nat, first: nat, last: nat, kept: nat, held: nat)
    requires between <= Max(before, 4 * first + 2 * kept) && first <= last && kept <= held
    requires after == between || after <= Max(between, 4 * last + 2 * held)
    ensures after <= Max(before, 4 * last + 2 * held)
    ensures last <= held + first ==> after <= Max(before, 6 * held + 4 * first)
  {
  }

  lemma FilledBehind(before: string, after: string, lo: nat, mid: nat, s: string)
    requires lo <= mid && mid + |s| <= |before| == |after|
    requires forall k :: 0 <= k < mid ==> after[k] == before[k]
    requires forall k :: 0 <= k < |s| ==> after[mid + k] == s[k]
    ensures after[lo..mid + |s|] == before[lo..mid] + s
  {
    assert after[lo..mid] == before[lo..mid] && after[mid..mid + |s|] == s;
    assert after[lo..mid + |s|] == after[lo..mid] + after[mid..mid + |s|];
  }

  lemma SliceOfSlice(s: string, lo: nat, hi: nat, i: nat, j: nat)
    requires i <= j <= hi - lo && hi <= |s|
    ensures s[lo..hi][i..j] == s[lo + i..lo + j]
  {
    assert |s[lo..hi][i..j]| == |s[lo + i..lo + j]|;
    forall k | 0 <= k < j - i ensures s[lo..hi][i..j][k] == s[lo + i..lo + j][k] {
    }
  }

  lemma TwiceTimes(x: int, y: int)
    ensures 2 * x * y == x * (2 * y)
  {
  }

  /** The last of d + 1 such reads asks for first * 2^d bytes: the recursion is logarithmic in what it reads. */
  lemma {:induction false} DoubledIsPower(first: nat, readings: seq<Reading>)
    requires FullReads(first, readings)
    ensures readings[|readings| - 1].asked == first * Pow2(|readings| - 1)
    decreases |readings|
  {
    if |readings| > 1 {
      DoubledIsPower(2 * first, readings[1..]);
      TwiceTimes(first, Pow2(|readings| - 2));
    }
  }
}
