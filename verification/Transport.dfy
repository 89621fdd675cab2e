/** The two byte streams of a connection. */
module Transport {
  import opened Wrappers

  /** Why a read did not deliver: the transport failed, or the caller's timer fired first. */
  datatype Fault = Failed | TimedOut

  /** The read buffer that the connection and its body readers share. */
  class Buffer {
    var data: string

    constructor ()
      ensures data == ""
    {
      data := "";
    }
  }

  /** A peer: the bytes that will still arrive, the fault that ends reading behind them, if it is not the
      end of the input, and the bytes written so far. Both are arbitrary, so a fault may strike any read. */
  class Stream {
    const fault: Option<Fault>
    var unread: string
    var written: string

    constructor (input: string, fault: Option<Fault>)
      ensures unread == input && written == "" && this.fault == fault
    {
      unread, written, this.fault := input, "", fault;
    }

    /** One read: any non-empty piece of what is left, at most `cap` bytes; behind it, the fault, or
        nothing at the end of input. */
    method Read(cap: nat) returns (r: Result<string, Fault>)
      requires cap > 0
      modifies this`unread
      ensures r.Ok? ==> old(unread) == r.value + unread && |r.value| <= cap
      ensures r.Ok? ==> (r.value == "" <==> old(unread) == "")
      ensures old(unread) == "" ==> r == match fault case None => Ok("") case Some(f) => Err(f)
      ensures r.Err? ==> old(unread) == unread == ""
    {
      if unread == "" {
        return match fault case None => Ok("") case Some(f) => Err(f);
      }
      var n :| 1 <= n <= cap && n <= |unread|;
      r := Ok(unread[..n]);
      unread := unread[n..];
    }

    /** Appends one read of any size to the buffer. */
    method ReadBuf(buffer: Buffer) returns (r: Result<nat, Fault>)
      modifies this`unread, buffer
      ensures r.Ok? ==> buffer.data + unread == old(buffer.data + unread)
      ensures r.Ok? ==> |buffer.data| == |old(buffer.data)| + r.value && old(buffer.data) <= buffer.data
      ensures r.Ok? ==> (r.value == 0 <==> old(unread) == "")
      ensures old(unread) == "" ==> r == match fault case None => Ok(0) case Some(f) => Err(f)
      ensures r.Err? ==> old(unread) == unread == "" && buffer.data == old(buffer.data)
    {
      var cap := *;
      if cap < 1 {
        cap := 1;
      }
      var piece := Read(cap);
      if piece.Err? {
        return Err(piece.error);
      }
      buffer.data := buffer.data + piece.value;
      assert buffer.data + unread == old(buffer.data + unread);
      return Ok(|piece.value|);
    }

    /** Writes all bytes. */
    method WriteAll(bytes: string)
      modifies this`written
      ensures written == old(written) + bytes
    {
      written := written + bytes;
    }
  }
}
