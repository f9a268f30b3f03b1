/**
 * The bounded byte stream: a FIFO of bytes with a fixed capacity, a writer
 * side (push, close, capacity queries) and a reader side (peek, pop,
 * finished queries) over one shared state, plus a sticky error flag.
 *
 * `Stream` is the value of that state and its functions say what each
 * operation does to it; `ByteStream` is the object whose methods change the
 * state in place and are proved to follow those functions.
 */
module ByteStreams {

  /** One byte of the stream (the source stores `char`s; only their 256 values matter). */
  newtype byte = b: int | 0 <= b < 256

  function Min(x: nat, y: nat): (m: nat)
    ensures m <= x && m <= y && (m == x || m == y)
  {
    if x <= y then x else y
  }

  /**
   * The fields of a byte stream: the buffered bytes, the fixed capacity, the
   * error and closed flags and the lifetime counts of bytes written (pushed)
   * and read (popped).
   */
  datatype Stream = Stream(buffer: seq<byte>, capacity: nat, error: bool, closed: bool,
                           pushed: nat, popped: nat)
  {
    /** What every operation keeps: at most `capacity` bytes are buffered,
        and they are exactly the bytes pushed and not yet popped. */
    ghost predicate Valid() {
      |buffer| <= capacity && pushed == popped + |buffer|
    }

    /** How many more bytes a push would accept now. */
    function AvailableCapacity(): (n: nat)
      requires Valid()
      ensures |buffer| + n == capacity
    {
      capacity - |buffer|
    }

    /** Bytes pushed and not yet popped. */
    function BytesBuffered(): (n: nat)
      requires Valid()
      ensures n == pushed - popped
      ensures n <= capacity
    {
      |buffer|
    }

    /** The stream is finished when it is closed and everything pushed has been popped. */
    function IsFinished(): (b: bool)
      requires Valid()
      ensures b <==> closed && pushed == popped
    {
      closed && |buffer| == 0
    }

    /** A view of the next byte, or an empty view when nothing is buffered. */
    function Peek(): (view: seq<byte>)
      ensures |view| <= 1
      ensures view == [] <==> buffer == []
      ensures view != [] ==> view[0] == buffer[0]
    {
      if |buffer| == 0 then [] else buffer[..1]
    }

    /** Signals an error; nothing else changes. */
    function SetError(): (r: Stream)
      ensures r.error
      ensures r.(error := error) == this
    {
      this.(error := true)
    }

    /**
     * Writes as much of `data` as the available capacity allows. Writing to a
     * closed or failed stream only raises the error flag.
     */
    function Push(data: seq<byte>): (r: Stream)
      requires Valid()
      ensures r.Valid()
      ensures r.capacity == capacity && r.closed == closed && r.popped == popped
      ensures closed || error ==> r.error && r.buffer == buffer && r.pushed == pushed
      ensures !(closed || error) ==>
                var n := Min(|data|, AvailableCapacity());
                !r.error && r.buffer == buffer + data[..n] && r.pushed == pushed + n
    {
      if closed || error then
        SetError()
      else
        var accepted := if |data| > AvailableCapacity() then data[..AvailableCapacity()] else data;
        this.(buffer := buffer + accepted, pushed := pushed + |accepted|)
    }

    /** Signals that no more bytes will be written; the buffer and the counts stay as they are. */
    function Close(): (r: Stream)
      ensures r.closed
      ensures r.(closed := closed) == this
    {
      this.(closed := true)
    }

    /**
     * Removes up to `len` bytes from the front of the buffer; asking for more
     * than is buffered removes everything and is not an error.
     */
    function Pop(len: nat): (r: Stream)
      ensures Valid() ==> r.Valid()
      ensures r.capacity == capacity && r.error == error && r.closed == closed && r.pushed == pushed
      ensures var n := Min(len, |buffer|);
              buffer == buffer[..n] + r.buffer && r.popped == popped + n
    {
      var n := if len > |buffer| then |buffer| else len;
      this.(buffer := buffer[n..], popped := popped + n)
    }
  }

  /** A freshly constructed stream. */
  function Fresh(capacity: nat): (s: Stream)
    ensures s.Valid() && s.buffer == [] && s.capacity == capacity
    ensures !s.error && !s.closed && s.pushed == 0 && s.popped == 0
  {
    Stream([], capacity, false, false, 0, 0)
  }

  /** Closing twice is closing once. */
  lemma CloseIdempotent(s: Stream)
    ensures s.Close().Close() == s.Close()
  {
  }

  /** Once the error flag is up, no operation lowers it. */
  lemma ErrorIsSticky(s: Stream, data: seq<byte>, len: nat)
    requires s.Valid() && s.error
    ensures s.Push(data).error && s.Pop(len).error && s.Close().error && s.SetError().error
  {
  }

  /** After close, a push writes nothing and raises the error flag. */
  lemma NoWritesAfterClose(s: Stream, data: seq<byte>)
    requires s.Valid() && s.closed
    ensures s.Push(data).buffer == s.buffer && s.Push(data).pushed == s.pushed
    ensures s.Push(data).error
  {
  }

  /**
   * The stream object. The source declares a `Writer` and a `Reader` view of
   * the same object; here both sets of operations live on one class.
   */
  class ByteStream {
    var buffer: seq<byte>
    const capacity: nat
    var error: bool
    var closed: bool
    var bytesWritten: nat
    var bytesRead: nat

    /** The current state as a value. */
    function Value(): Stream
      reads this
    {
      Stream(buffer, capacity, error, closed, bytesWritten, bytesRead)
    }

    ghost predicate Valid()
      reads this
    {
      Value().Valid()
    }

    constructor (capacity: nat)
      ensures Value() == Fresh(capacity)
    {
      buffer := [];
      this.capacity := capacity;
      error := false;
      closed := false;
      bytesWritten := 0;
      bytesRead := 0;
    }

    /** A stream object holding the state `s`: what a move leaves in the new owner. */
    constructor Holding(s: Stream)
      ensures Value() == s
    {
      buffer := s.buffer;
      capacity := s.capacity;
      error := s.error;
      closed := s.closed;
      bytesWritten := s.pushed;
      bytesRead := s.popped;
    }

    method SetError()
      modifies this
      ensures Value() == old(Value()).SetError()
    {
      error := true;
    }

    /** Whether the error flag is up. */
    function HasError(): (b: bool)
      reads this
      ensures b == Value().error
    {
      error
    }

    // Writer side

    method Push(data: seq<byte>)
      requires Valid()
      modifies this
      ensures Value() == old(Value()).Push(data)
    {
      if closed || error {
        SetError();
        return;
      }
      var accepted := data;
      if |accepted| > AvailableCapacity() {
        accepted := accepted[..AvailableCapacity()];
      }
      buffer := buffer + accepted;
      bytesWritten := bytesWritten + |accepted|;
    }

    method Close()
      modifies this
      ensures Value() == old(Value()).Close()
    {
      closed := true;
    }

    /** Whether the writer has closed the stream. */
    function IsClosed(): (b: bool)
      reads this
      ensures b == Value().closed
    {
      closed
    }

    /** How many more bytes a push would accept now. */
    function AvailableCapacity(): (n: nat)
      reads this
      requires Valid()
      ensures |buffer| + n == capacity
    {
      Value().AvailableCapacity()
    }

    /** Bytes written over the stream's lifetime: those read plus those still buffered. */
    function BytesPushed(): (n: nat)
      reads this
      ensures n == Value().pushed
      ensures Valid() ==> n == bytesRead + |buffer|
    {
      bytesWritten
    }

    // Reader side

    /** A view of the next byte, or an empty view when nothing is buffered. */
    function Peek(): (view: seq<byte>)
      reads this
      ensures |view| <= 1
      ensures view == [] <==> buffer == []
      ensures view != [] ==> view[0] == buffer[0]
    {
      Value().Peek()
    }

    method Pop(len: nat)
      modifies this
      ensures Value() == old(Value()).Pop(len)
    {
      var n := len;
      if n > |buffer| {
        n := |buffer|;
      }
      buffer := buffer[n..];
      bytesRead := bytesRead + n;
    }

    /** Closed, and everything written has been read. */
    function IsFinished(): (b: bool)
      reads this
      requires Valid()
      ensures b <==> closed && bytesWritten == bytesRead
    {
      Value().IsFinished()
    }

    /** Bytes written and not yet read. */
    function BytesBuffered(): (n: nat)
      reads this
      requires Valid()
      ensures n == bytesWritten - bytesRead && n <= capacity
    {
      Value().BytesBuffered()
    }

    /** Bytes read over the stream's lifetime: those written minus those still buffered. */
    function BytesPopped(): (n: nat)
      reads this
      ensures n == Value().popped
      ensures Valid() ==> n + |buffer| == bytesWritten
    {
      bytesRead
    }
  }
}
