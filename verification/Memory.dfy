/** Copying bytes into a buffer. */
module Memory {
  import opened Wire

  /** `memcpy(buffer + at, src, size)`. */
  method Copy(buffer: array<Byte>, at: nat, src: Bytes)
    requires at + |src| <= buffer.Length
    modifies buffer
    ensures buffer[..] == Overwrite(old(buffer[..]), at, src)
  {
    for i := 0 to |src|
      invariant buffer[..] == Overwrite(old(buffer[..]), at, src[..i])
    {
      OverwriteGrows(old(buffer[..]), at, src, i);
      buffer[at + i] := src[i];
    }
    assert src[..|src|] == src;
  }

  lemma OverwriteGrows(buffer: Bytes, at: nat, src: Bytes, i: nat)
    requires at + |src| <= |buffer| && i < |src|
    ensures Overwrite(buffer, at, src[..i])[at + i := src[i]] == Overwrite(buffer, at, src[..i + 1])
  {
  }
}
