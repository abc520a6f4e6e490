/** The memory copies the drivers are written with. */
module Memory {
  import opened Bytes

  /** `memset(buf + at, 0, n)`. */
  method Zero(buf: array<Byte>, at: nat, n: nat)
    requires at + n <= buf.Length
    modifies buf
    ensures buf[..at] == old(buf[..at]) && buf[at..at + n] == Zeros(n) && buf[at + n..] == old(buf[at + n..])
  {
    for k := 0 to n
      invariant buf[..at] == old(buf[..at]) && buf[at..at + k] == Zeros(k) && buf[at + k..] == old(buf[at + k..])
    {
      buf[at + k] := 0;
      assert buf[at..at + k + 1] == buf[at..at + k] + [0];
    }
  }

  /** `memcpy(buf + at, src, |src|)`. */
  method Copy(buf: array<Byte>, at: nat, src: Block)
    requires at + |src| <= buf.Length
    modifies buf
    ensures buf[..at] == old(buf[..at]) && buf[at..at + |src|] == src && buf[at + |src|..] == old(buf[at + |src|..])
  {
    for k := 0 to |src|
      invariant buf[..at] == old(buf[..at]) && buf[at..at + k] == src[..k] && buf[at + k..] == old(buf[at + k..])
    {
      buf[at + k] := src[k];
      assert buf[at..at + k + 1] == buf[at..at + k] + [src[k]];
    }
  }
}
