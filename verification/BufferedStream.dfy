/**
 The stream that gives back what was read off a connection to look at it: first the bytes
 already read, then the connection's own. Whoever reads it sees the connection from its start.
 */
module BufferedStream {
  import opened Wrappers
  import opened Bytes

  class Buffered {
    const prefix: seq<Byte>
    const inner: Stream
    var position: nat

    ghost predicate Valid()
      reads this
    {
      position <= |prefix|
    }

    /** The bytes still to come. */
    ghost function Ahead(): seq<Byte>
      requires Valid()
      reads this, inner
    {
      prefix[position..] + inner.bytes
    }

    constructor (prefix: seq<Byte>, inner: Stream)
      ensures Valid() && this.inner == inner && Ahead() == prefix + inner.bytes
    {
      this.prefix, this.inner, position := prefix, inner, 0;
    }

    /** One read into a buffer with `room` bytes left: some of what is ahead, and nothing
        only at the end or without room. */
    method PollRead(room: nat) returns (got: seq<Byte>)
      requires Valid()
      modifies this`position, inner
      ensures Valid() && old(Ahead()) == got + Ahead()
      ensures |got| <= room && (got == [] <==> room == 0 || old(Ahead()) == [])
    {
      if position < |prefix| {
        var remaining := |prefix| - position;
        var toCopy := if remaining < room then remaining else room;
        got := prefix[position..position + toCopy];
        position := position + toCopy;
        assert prefix[old(position)..] == got + prefix[position..];
      } else {
        got := inner.ReadSome(room);
      }
    }

    /** Reads until `n` bytes have come, however the reads split them: exactly what
        reading the whole connection would give. */
    method ReadExact(n: nat) returns (r: Option<seq<Byte>>)
      requires Valid()
      modifies this`position, inner
      ensures Valid()
      ensures match Split(old(Ahead()), n)
              case Some((front, rest)) => r == Some(front) && Ahead() == rest
              case None => r == None && Ahead() == []
    {
      var filled: seq<Byte> := [];
      while |filled| < n
        invariant Valid() && |filled| <= n
        invariant old(Ahead()) == filled + Ahead()
      {
        var got := PollRead(n - |filled|);
        if got == [] {
          return None;
        }
        filled := filled + got;
      }
      SplitConcat(filled, Ahead());
      return Some(filled);
    }
  }
}
