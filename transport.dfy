/** The UDP side shared by both servers: a datagram is read into one reused
    1024-byte buffer and its text is the trimmed content of what fitted. */
module Transport {
  import opened GoStrings

  /** Size of the receive buffer both loops allocate once and reuse. */
  const BufferSize: nat := 1024

  /** The sender's address, used only to address the reply. */
  datatype Addr = Addr(host: string, port: nat)

  /** One datagram as it arrives: its sender and its payload, one character per byte. */
  datatype Datagram = Datagram(sender: Addr, payload: string)

  /** What a read into a buffer of `capacity` bytes delivers: the payload's first
      `capacity` bytes; the rest of an oversized datagram is discarded. */
  function Delivered(payload: string, capacity: nat): (r: string)
    ensures |r| == if |payload| < capacity then |payload| else capacity
    ensures r == payload[..|r|]
  {
    if |payload| <= capacity then payload else payload[..capacity]
  }

  /** The text a loop hands to its handler for datagram `d`. */
  function ReceivedText(d: Datagram): string {
    TrimSpace(Delivered(d.payload, BufferSize))
  }

  /** The handled text is a stretch of the datagram's first 1024 bytes, with only
      white space cut around it, and it carries no white space at either end. */
  lemma ReceivedTextWithinBuffer(d: Datagram) returns (pre: string, post: string)
    ensures Delivered(d.payload, BufferSize) == pre + ReceivedText(d) + post
    ensures AllSpace(pre) && AllSpace(post)
    ensures IsTrimmed(ReceivedText(d)) && |ReceivedText(d)| <= BufferSize
  {
    pre, post := TrimSpaceCutsEnds(Delivered(d.payload, BufferSize));
    assert |pre + ReceivedText(d) + post| <= BufferSize;
  }

  /** conn.ReadFrom(b): copies as much of the datagram as fits into `b` and
      reports how many bytes it copied and who sent them. */
  method ReadFrom(b: array<char>, d: Datagram) returns (n: nat, sender: Addr)
    modifies b
    ensures n <= b.Length && b[..n] == Delivered(d.payload, b.Length)
    ensures forall k :: n <= k < b.Length ==> b[k] == old(b[k])
    ensures sender == d.sender
  {
    n := if |d.payload| <= b.Length then |d.payload| else b.Length;
    var i := 0;
    while i < n
      invariant i <= n
      invariant b[..i] == d.payload[..i]
      invariant forall k :: i <= k < b.Length ==> b[k] == old(b[k])
    {
      b[i] := d.payload[i];
      i := i + 1;
    }
    sender := d.sender;
  }
}
