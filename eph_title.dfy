/**
 * Reading the title at the start of a binary ephemeris file into a caller's
 * character buffer. Opening and reading the file are outside the model: the
 * caller passes what the read reported, with the bytes it delivered already
 * sitting at the front of the buffer.
 */
module EphTitle {
  import opened Text

  /** What opening the file and asking for capacity-1 bytes produced. */
  datatype ReadResult =
    | OpenFailed              // open(2) returned a negative descriptor
    | ReadReturned(cnt: int)  // read(2) returned cnt: -1 on error, else the bytes delivered

  const Nul: char := '\0'

  /** A read result is possible for a buffer of `capacity` characters. */
  predicate PossibleRead(src: ReadResult, capacity: int)
  {
    src.ReadReturned? ==> -1 <= src.cnt <= capacity - 1
  }

  /**
   * The title held in `buf` after the read: empty unless the read delivered
   * all |buf|-1 requested bytes; after such a full read, the bytes read with
   * only their trailing blanks cut away, so a prefix of them that does not
   * end in a blank and is never longer than |buf|-1.
   */
  function Title(buf: seq<char>, src: ReadResult): (t: seq<char>)
    requires |buf| >= 1
    ensures |t| <= |buf| - 1
    ensures !(src.ReadReturned? && src.cnt == |buf| - 1) ==> t == []
    ensures src.ReadReturned? && src.cnt == |buf| - 1 ==>
      && t == buf[..|t|]
      && !EndsInSpace(t)
      && AllSpacesFrom(buf[..|buf| - 1], |t|)
  {
    if src.ReadReturned? && src.cnt == |buf| - 1 then RTrim(buf[..|buf| - 1]) else []
  }

  /**
   * `get_eph_title`: after a full read, step back over the trailing blanks;
   * then terminate the buffer there and report the title's length. On any
   * other outcome the terminator lands at position 0.
   */
  method GetEphTitle(outStr: array<char>, src: ReadResult) returns (len: int)
    requires outStr.Length >= 1
    requires PossibleRead(src, outStr.Length)
    modifies outStr
    ensures len == |Title(old(outStr[..]), src)|
    ensures old(outStr[..len]) == Title(old(outStr[..]), src)
    ensures outStr[..] == old(outStr[..])[len := Nul]
  {
    ghost var buf := outStr[..];
    var p := 0;
    if src.ReadReturned? && src.cnt == outStr.Length - 1 {
      p := src.cnt;
      while p > 0 && outStr[p - 1] == ' '
        invariant 0 <= p <= src.cnt
        invariant outStr[..] == buf
        invariant RTrim(buf[..p]) == RTrim(buf[..src.cnt])
      {
        assert buf[..p - 1] == buf[..p][..p - 1];
        p := p - 1;
      }
      assert RTrim(buf[..p]) == buf[..p];
    }
    outStr[p] := Nul;
    len := p;
  }
}
