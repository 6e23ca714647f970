/** The buffered record reader of src/stream.c: a compacting byte buffer that a callback refills
    in pieces of any size, delivering the records of the stream one at a time. */
module Stream {
  import opened Bytes
  import opened Records
  import opened Selection

  /** What one invocation of the fill callback does: hand over up to `most` bytes (at least one
      when it can), find nothing before the timeout, or fail. */
  datatype FillEvent = Chunk(most: nat) | Stall | Fault(errno: Errno)

  const EAGAIN := 11
  type Errno = e: int | e > 0 && e != EAGAIN witness 1

  ghost predicate Faultless(script: seq<FillEvent>) {
    forall e :: e in script ==> !e.Fault?
  }

  /** As of a file: every invocation hands something over while there is anything left. */
  ghost predicate Steady(script: seq<FillEvent>) {
    forall e :: e in script ==> e.Chunk?
  }

  datatype Status = Ok | Eof | Again | Failed(errno: Errno) | Invalid

  /** What a result other than a record means: the end is reported only when the stream was closed
      or holds no further record, anything else only when the callback said so. */
  ghost predicate Stopped(st: Status, ended: bool, interrupted: bool) {
    match st
    case Eof => ended
    case Again => interrupted
    case Failed(_) => interrupted
    case _ => false
  }

  datatype Attempt = Ready(size: nat) | Retry | Stop(status: Status)

  class Reader {
    const buffer: array<byte>
    var readPos: nat
    var writePos: nat
    var flushed: bool
    var read: nat
    var matched: nat
    var usage: nat

    /** The outside world: bytes not yet handed over and the callback's behaviour on its next
        invocations. A callback past the end of the script hands over all it can. */
    var source: seq<byte>
    var script: seq<FillEvent>

    ghost predicate Valid()
      reads this
    {
      readPos <= writePos <= buffer.Length
    }

    ghost function Unread(): seq<byte>
      requires Valid()
      reads this, buffer
    {
      buffer[readPos..writePos] + source
    }

    ghost function Buffered(): seq<byte>
      requires Valid()
      reads this, buffer
    {
      buffer[readPos..writePos]
    }

    constructor (size: nat, source: seq<byte>, script: seq<FillEvent>)
      ensures Valid() && Unread() == source && this.script == script && this.source == source
      ensures !flushed && read == 0 && matched == 0
      ensures fresh(buffer) && buffer.Length == (if size == 0 then 175000 else size)
    {
      buffer := new byte[if size == 0 then 175000 else size](_ => 0);
      readPos, writePos, flushed, read, matched, usage := 0, 0, false, 0, 0, 0;
      this.source, this.script := source, script;
    }

    /** The fill callback: positive results count bytes stored at `buffer[at..]`. */
    method Callback(at: nat, max: nat) returns (ret: int, errno: int)
      requires at + max <= buffer.Length
      modifies this`source, this`script, buffer
      ensures |script| <= |old(script)|
      ensures ret >= 0 ==> ret <= max && ret <= |old(source)| && source == old(source)[ret..]
      ensures ret >= 0 ==> buffer[at..at + ret] == old(source)[..ret]
      ensures ret == 0 ==> max == 0 || source == []
      ensures ret < 0 ==> source == old(source) && |script| < |old(script)|
      ensures ret < 0 ==> errno == EAGAIN || (errno > 0 && errno != EAGAIN)
      ensures Faultless(old(script)) ==> Faultless(script) && (ret < 0 ==> errno == EAGAIN)
      ensures Steady(old(script)) ==> Steady(script) && ret >= 0
      ensures forall i :: 0 <= i < buffer.Length && !(at <= i < at + ret) ==> buffer[i] == old(buffer[i])
    {
      var event := if script == [] then Chunk(max) else script[0];
      assert script != [] ==> event in script;
      script := if script == [] then [] else script[1..];
      match event
      case Stall => ret, errno := -1, EAGAIN;
      case Fault(e) => ret, errno := -1, e;
      case Chunk(most) =>
        var n := Min(Min(if most == 0 then 1 else most, max), |source|);
        forall i | 0 <= i < n { buffer[at + i] := source[i]; }
        source := source[n..];
        ret, errno := n, 0;
    }

    /** fill_buffer: slide the unread bytes to the front and refill behind them. */
    method FillBuffer() returns (st: Status)
      requires Valid()
      modifies this`readPos, this`writePos, this`source, this`script, buffer
      ensures Valid() && Unread() == old(Unread())
      ensures |script| <= |old(script)| && |source| <= |old(source)|
      ensures Faultless(old(script)) ==> Faultless(script) && !st.Failed?
      ensures Steady(old(script)) ==> Steady(script) && (st.Ok? || st.Eof?)
      ensures st.Ok? ==> |source| < |old(source)| || (readPos == old(readPos) && old(Held()))
      ensures !st.Ok? ==> Buffered() == old(Buffered())
      ensures st.Eof? ==> flushed || source == [] || (readPos == 0 && writePos == buffer.Length)
      ensures st.Again? || st.Failed? ==> |script| < |old(script)|
      ensures !st.Invalid?
    {
      if flushed {
        return Eof;
      }
      var available := buffer.Length - writePos;
      var left := buffer.Length - readPos;
      if available == 0 && left > HEADER && left > Size(buffer[readPos..]) {
        assert buffer[readPos..] == Buffered();
        return Ok;
      }
      Compact();
      st := Refill();
    }

    /** Ask the callback for as much as there is room for behind the unread bytes. */
    method Refill() returns (st: Status)
      requires Valid()
      modifies this`writePos, this`source, this`script, buffer
      ensures Valid() && Unread() == old(Unread())
      ensures |script| <= |old(script)| && |source| <= |old(source)|
      ensures Faultless(old(script)) ==> Faultless(script) && !st.Failed?
      ensures Steady(old(script)) ==> Steady(script) && (st.Ok? || st.Eof?)
      ensures st.Ok? ==> |source| < |old(source)|
      ensures !st.Ok? ==> Buffered() == old(Buffered())
      ensures st.Eof? ==> source == [] || writePos == buffer.Length
      ensures st.Again? || st.Failed? ==> |script| < |old(script)|
      ensures !st.Invalid?
    {
      ghost var kept, was := Buffered(), source;
      var ret, errno := Callback(writePos, buffer.Length - writePos);
      assert buffer[readPos..writePos] == kept;
      if ret > 0 {
        assert buffer[writePos..writePos + ret] == was[..ret];
        writePos := writePos + ret;
        assert Buffered() == kept + was[..ret];
        assert was == was[..ret] + was[ret..];
        return Ok;
      }
      if ret < 0 {
        return if errno == EAGAIN then Again else Failed(errno);
      }
      return Eof;
    }

    /** The record at the read position is complete in the buffer. */
    ghost predicate Held()
      reads this, buffer
    {
      Valid() && Whole(Buffered())
    }

    method Compact()
      requires Valid()
      modifies this`readPos, this`writePos, buffer
      ensures Valid() && Buffered() == old(Buffered())
      ensures readPos == 0 && writePos == old(writePos - readPos)
    {
      if readPos > 0 {
        var bytes := writePos - readPos;
        forall i | 0 <= i < bytes { buffer[i] := buffer[readPos + i]; }
        writePos, readPos := bytes, 0;
      }
    }

    /** The part of stream_read before a record is taken: top up the buffer and see whether the
        record at the read position is complete in it. */
    method Prepare(blocking: bool) returns (next: Attempt)
      requires Valid()
      modifies this`readPos, this`writePos, this`source, this`script, buffer
      ensures Valid() && Unread() == old(Unread())
      ensures |script| <= |old(script)| && |source| <= |old(source)|
      ensures Faultless(old(script)) ==> Faultless(script) && (next.Stop? ==> !next.status.Failed?)
      ensures next.Ready? ==> Held() && next.size == Size(Buffered())
      ensures next.Retry? ==> |script| < |old(script)| || |source| < |old(source)|
      ensures next.Stop? ==> Stopped(next.status, flushed || !Readable(Unread(), buffer.Length),
        |script| < |old(script)|)
    {
      if writePos - readPos < HEADER {
        var s := FillBuffer();
        if s.Ok? || (s.Again? && (writePos - readPos >= HEADER || blocking)) {
          return Retry;
        }
        return Stop(s);
      }
      var s := FillBuffer();
      if s.Failed? {
        return Stop(s);
      }
      var size := Size(buffer[readPos..writePos]);
      if readPos + size > writePos {
        CapLenPrefix(Buffered(), source);
        s := FillBuffer();
        return if s.Ok? then Retry else Stop(s);
      }
      return Ready(size);
    }

    /** stream_read. The result is the buffer offset of the record, the C code's pointer. */
    method Read<F>(step: Step<F>, f: F, blocking: bool) returns (st: Status, at: nat, g: F)
      requires Valid()
      modifies this, buffer
      ensures Valid() && flushed == old(flushed)
      ensures |script| <= |old(script)| && (Faultless(old(script)) ==> Faultless(script) && !st.Failed?)
      ensures st.Ok? ==> at <= readPos && read > old(read)
      ensures st.Ok? ==>
        Seek(old(Unread()), buffer.Length, step, f, old(read)) == Found(buffer[at..readPos], Unread(), g, read)
      ensures !st.Ok? ==> read >= old(read)
      ensures !st.Ok? ==> Stopped(st, flushed || !Readable(Unread(), buffer.Length), |script| < |old(script)|)
      ensures !st.Ok? ==>
        Seek(old(Unread()), buffer.Length, step, f, old(read)) == Seek(Unread(), buffer.Length, step, g, read)
      ensures matched == old(matched) + (if st.Ok? then 1 else 0)
    {
      g, at := f, 0;
      ghost var goal := Seek(Unread(), buffer.Length, step, f, read);
      while true
        invariant Looking(old(flushed), old(matched), old(read), old(script))
        invariant goal == Seek(Unread(), buffer.Length, step, g, read)
        decreases |script|, |source|, |Unread()|
      {
        var next;
        next, at, g := Advance(step, g, blocking);
        if next.Stop? {
          return next.status, at, g;
        }
      }
    }

    /** What the rounds of a read keep. */
    ghost predicate Looking(flushed: bool, matched: nat, read: nat, script: seq<FillEvent>)
      reads this
    {
      && Valid() && this.flushed == flushed && this.matched == matched && this.read >= read
      && |this.script| <= |script| && (Faultless(script) ==> Faultless(this.script))
    }

    /** One round of stream_read's loop: `Retry` when it goes round again. */
    method Advance<F>(step: Step<F>, f: F, blocking: bool) returns (next: Attempt, at: nat, g: F)
      requires Valid()
      modifies this, buffer
      ensures Valid() && flushed == old(flushed)
      ensures |script| <= |old(script)|
      ensures Faultless(old(script)) ==> Faultless(script) && !(next.Stop? && next.status.Failed?)
      ensures read >= old(read)
      ensures !next.Ready? && (next.Stop? && next.status.Ok? ==> at <= readPos && read == old(read) + 1)
      ensures Seek(old(Unread()), buffer.Length, step, f, old(read))
           == if next == Stop(Ok) then Found(buffer[at..readPos], Unread(), g, read)
              else Seek(Unread(), buffer.Length, step, g, read)
      ensures next.Retry? ==> |script| < |old(script)| || |source| < |old(source)| || |Unread()| < |old(Unread())|
      ensures |source| <= |old(source)|
      ensures next.Stop? && !next.status.Ok? ==>
        Stopped(next.status, flushed || !Readable(Unread(), buffer.Length), |script| < |old(script)|)
      ensures matched == old(matched) + (if next == Stop(Ok) then 1 else 0)
    {
      next := Prepare(blocking);
      at, g := readPos, f;
      if next.Ready? {
        var yes;
        yes, g := Take(next.size, step, f);
        next := Retry;
        if yes {
          matched := matched + 1;
          next := Stop(Ok);
        }
      }
    }

    /** Hand out the record at the read position, step over it and ask the filter about it. */
    method Take<F>(size: nat, step: Step<F>, f: F) returns (yes: bool, g: F)
      requires Held() && size == Size(Buffered())
      modifies this`readPos, this`read, this`usage
      ensures Valid() && readPos == old(readPos) + size && read == old(read) + 1
      ensures usage == writePos - readPos
      ensures |Unread()| < |old(Unread())|
      ensures Seek(old(Unread()), buffer.Length, step, f, old(read))
           == if yes then Found(buffer[old(readPos)..readPos], Unread(), g, read)
              else Seek(Unread(), buffer.Length, step, g, read)
    {
      CapLenPrefix(Buffered(), source);
      var record := buffer[readPos..readPos + size];
      ghost var before := Unread();
      readPos := readPos + size;
      read := read + 1;
      usage := writePos - readPos;
      assert before[..size] == record && before[size..] == Unread();
      var (h, verdict) := step(f, record);
      yes, g := verdict, h;
    }

    /** stream_peek without a filter: the record at the read position, left in place. */
    method Peek() returns (st: Status, at: nat)
      requires Valid()
      modifies this`readPos, this`writePos, this`source, this`script, buffer
      ensures Valid() && Unread() == old(Unread())
      ensures |script| <= |old(script)| && (Faultless(old(script)) ==> Faultless(script) && !st.Failed?)
      ensures st.Ok? ==> at == readPos && Held() && CapLen(Buffered()) > 0
      ensures st.Ok? ==> Readable(Unread(), buffer.Length) && Size(Unread()) == Size(Buffered())
      ensures st.Invalid? ==> |Unread()| >= HEADER && CapLen(Unread()) == 0
      ensures !st.Ok? && !st.Invalid? ==>
        Stopped(st, flushed || !Readable(Unread(), buffer.Length), |script| < |old(script)|)
      ensures Steady(old(script)) ==> Steady(script) && !st.Again? && !st.Failed?
      ensures !flushed && !st.Again? && !st.Failed? ==>
        (st.Ok? <==> Readable(Unread(), buffer.Length) && CapLen(Unread()) > 0)
    {
      at := 0;
      while true
        invariant Valid() && Unread() == old(Unread()) && (Steady(old(script)) ==> Steady(script))
        invariant |script| <= |old(script)| && (Faultless(old(script)) ==> Faultless(script))
        decreases |script|, |source|
      {
        if writePos - readPos >= HEADER {
          CapLenPrefix(Buffered(), source);
          var size := Size(buffer[readPos..writePos]);
          if size == HEADER {
            return Invalid, at;
          }
          if readPos + size <= writePos {
            return Ok, readPos;
          }
        }
        st := FillBuffer();
        if !st.Ok? {
          return;
        }
      }
    }

    /** stream_peek with a filter. The record stays in place, so the filter is asked about the same one again
        and again until it says yes, or for ever; here for as long as `tries` allows. */
    method PeekMatching<F(!new)>(step: Step<F>, f: F, tries: nat)
      returns (st: Status, yes: bool, at: nat, g: F, asked: nat)
      requires Valid()
      modifies this`readPos, this`writePos, this`source, this`script, buffer
      ensures Valid() && Unread() == old(Unread()) && asked <= tries
      ensures !st.Ok? ==> !yes && g == f && asked == 0
      ensures st.Invalid? ==> |Unread()| >= HEADER && CapLen(Unread()) == 0
      ensures st.Ok? ==> at == readPos && Held() && CapLen(Buffered()) > 0
      ensures st.Ok? ==> var r := Buffered()[..Size(Buffered())];
        && g == Retried(step, f, r, asked)
        && (if yes then asked > 0 && FirstYes(step, f, r, asked - 1)
            else asked == tries && forall i: nat :: i < tries ==> !step(Retried(step, f, r, i), r).1)
    {
      yes, g, asked := false, f, 0;
      st, at := Peek();
      if !st.Ok? {
        return;
      }
      var unread := buffer[readPos..writePos];
      var record := unread[..Size(unread)];
      while asked < tries
        invariant asked <= tries && g == Retried(step, f, record, asked)
        invariant forall i: nat :: i < asked ==> !step(Retried(step, f, record, i), record).1
      {
        var (h, verdict) := step(g, record);
        g, asked := h, asked + 1;
        if verdict {
          yes := true;
          return;
        }
      }
    }
  }

  /** Reading until the end, as capfilter does: timeouts are retried, any other result stops. */
  method ReadAll<F>(st: Reader, step: Step<F>, f: F) returns (out: seq<Record>, last: Status, g: F)
    requires st.Valid()
    modifies st, st.buffer
    ensures st.Valid() && st.flushed == old(st.flushed)
    ensures Select(Parse(old(st.Unread()), st.buffer.Length), step, f)
         == out + Select(Parse(st.Unread(), st.buffer.Length), step, g)
    ensures last.Eof? && !st.flushed ==> out == Select(Parse(old(st.Unread()), st.buffer.Length), step, f)
    ensures Faultless(old(st.script)) ==> last.Eof?
    ensures last.Eof? || last.Failed?
    ensures st.matched == old(st.matched) + |out|
  {
    out, last, g := [], Again, f;
    ghost var cap := st.buffer.Length;
    ghost var goal := Select(Parse(st.Unread(), cap), step, f);
    while last.Again? || last.Ok?
      invariant st.Valid() && st.flushed == old(st.flushed) && !last.Invalid?
      invariant Faultless(old(st.script)) ==> Faultless(st.script) && !last.Failed?
      invariant goal == out + Select(Parse(st.Unread(), cap), step, g)
      invariant last.Eof? && !st.flushed ==> !Readable(st.Unread(), cap)
      invariant st.matched == old(st.matched) + |out|
      decreases last.Again? || last.Ok?, |st.script|, |st.Unread()|
    {
      ghost var before, state, read := st.Unread(), g, st.read;
      var at;
      last, at, g := st.Read(step, g, false);
      if last.Ok? {
        SeekDelivers(before, state, read, Seek(before, cap, step, state, read), cap, step, out);
        out := out + [st.buffer[at..st.readPos]];
      } else {
        SeekPauses(before, state, read, st.Unread(), g, st.read, cap, step);
      }
    }
  }

  /** The length field of a buffered header is the length field of the stream. */
  lemma CapLenPrefix(b: seq<byte>, more: seq<byte>)
    requires |b| >= HEADER
    ensures Size(b + more) == Size(b)
  {
    assert forall i :: 0 <= i < HEADER ==> (b + more)[i] == b[i];
  }
}
