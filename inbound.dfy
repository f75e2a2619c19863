/**
  The bounded payload copy of `onMqttMessage` (src/main.cpp:94-104). The
  transport hands over a chunk of `len` payload bytes that is not
  NUL-terminated. The callback allocates `len + 1` bytes, copies the chunk
  with `strncpy(plStr, payload, len)` and writes a terminator at `plStr[len]`,
  so the string it prints never extends past the chunk.
*/
module Inbound {

  const Nul: char := '\0'

  /** A string of `n` NUL characters. */
  function Nuls(n: nat): (r: seq<char>)
    ensures |r| == n
    ensures forall k :: 0 <= k < n ==> r[k] == Nul
  {
    seq(n, _ => Nul)
  }

  /**
    What `strncpy(dst, src, |src|)` writes into `dst[0..|src|)`: the characters
    of `src` up to and including its first NUL, and NULs after that.
  */
  function StrncpyOf(src: seq<char>): (r: seq<char>)
    ensures |r| == |src|
  {
    if src == [] then []
    else if src[0] == Nul then Nuls(|src|)
    else [src[0]] + StrncpyOf(src[1..])
  }

  /** Position `k` of the copy holds `src[k]` unless a NUL comes earlier in `src`. */
  lemma {:induction false} StrncpyOfAt(src: seq<char>, k: nat)
    requires k < |src|
    ensures StrncpyOf(src)[k] == if Nul in src[..k] then Nul else src[k]
  {
    if src[0] == Nul {
      if k > 0 {
        assert src[..k][0] == Nul;
      }
    } else {
      if k > 0 {
        StrncpyOfAt(src[1..], k - 1);
        assert src[..k] == [src[0]] + src[1..][..k - 1];
      }
    }
  }

  /** The C string that starts at `s[0]`: its characters before the first NUL. */
  function CString(s: seq<char>): (r: seq<char>)
    ensures r <= s && Nul !in r
    ensures |r| == |s| || s[|r|] == Nul
  {
    if s == [] || s[0] == Nul then [] else [s[0]] + CString(s[1..])
  }

  /**
    The C string read from the terminated copy is the chunk up to its first
    NUL, and never longer than the chunk.
  */
  lemma {:induction false} CopyReadsOnlyChunk(src: seq<char>)
    ensures CString(StrncpyOf(src) + [Nul]) == CString(src)
    ensures |CString(src)| <= |src|
  {
    if src == [] {
      assert StrncpyOf(src) + [Nul] == [Nul];
    } else if src[0] == Nul {
      assert (StrncpyOf(src) + [Nul])[0] == Nul;
    } else {
      CopyReadsOnlyChunk(src[1..]);
      assert StrncpyOf(src) + [Nul] == [src[0]] + (StrncpyOf(src[1..]) + [Nul]);
    }
  }

  /**
    `strncpy(dst, src, n)`: copies characters of `src` until it has copied a
    NUL or `n` characters, then fills the rest of `dst[0..n)` with NULs. It
    reads `src` no further than its first NUL and writes nothing at or past
    index `n`.
  */
  method Strncpy(dst: array<char>, src: array<char>, n: nat)
    requires n <= dst.Length && n <= src.Length && dst != src
    modifies dst
    ensures dst[..n] == StrncpyOf(src[..n])
    ensures dst[n..] == old(dst[n..])
  {
    var i := 0;
    while i < n && src[i] != Nul
      invariant 0 <= i <= n
      invariant Nul !in src[..i]
      invariant dst[..i] == src[..i]
      invariant dst[n..] == old(dst[n..])
    {
      dst[i] := src[i];
      assert src[..i + 1] == src[..i] + [src[i]];
      i := i + 1;
    }
    var copied := i;
    while i < n
      invariant copied <= i <= n
      invariant dst[..copied] == src[..copied]
      invariant forall k :: copied <= k < i ==> dst[k] == Nul
      invariant dst[n..] == old(dst[n..])
    {
      dst[i] := Nul;
      i := i + 1;
    }
    forall k | 0 <= k < n
      ensures dst[k] == StrncpyOf(src[..n])[k]
    {
      StrncpyOfAt(src[..n], k);
      assert src[..n][..k] == src[..k];
      if k < copied {
        assert Nul !in src[..k] by {
          assert src[..k] == src[..copied][..k];
        }
      } else {
        assert src[copied] == Nul;
        assert k == copied || src[..k][copied] == Nul;
      }
    }
  }

  /**
    The copy in `onMqttMessage(topic, payload, properties, len, index, total)`:
    `payload` holds at least the `len` bytes of the chunk; the result is the
    `len + 1`-byte buffer `plStr` that the callback prints and frees.
  */
  method CopyPayload(payload: array<char>, len: nat) returns (plStr: array<char>)
    requires len <= payload.Length
    ensures fresh(plStr) && plStr.Length == len + 1
    ensures plStr[..len] == StrncpyOf(payload[..len]) && plStr[len] == Nul
    ensures CString(plStr[..]) == CString(payload[..len])
  {
    plStr := new char[len + 1];
    Strncpy(plStr, payload, len);
    plStr[len] := Nul;
    assert plStr[..] == plStr[..len] + [Nul];
    CopyReadsOnlyChunk(payload[..len]);
  }
}
