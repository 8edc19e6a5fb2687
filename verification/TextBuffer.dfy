/** A character buffer of fixed size that is filled by printing at its end. */
module TextBuffer {

  class Buffer {
    const data: array<char>
    /** The end of the text; the rest of the buffer is zero. */
    var pos: nat

    ghost predicate Valid()
      reads this, data
    {
      pos < data.Length && forall i :: pos <= i < data.Length ==> data[i] == '\0'
    }

    function Text(): string
      reads this, data
      requires pos <= data.Length
    {
      data[..pos]
    }

    constructor (size: nat)
      requires size > 0
      ensures Valid() && pos == 0 && data.Length == size && fresh(data)
    {
      data := new char[size](_ => '\0');
      pos := 0;
    }

    /** Appends a text and a terminating zero, cutting it off when it does not fit. */
    method Print(s: string) returns (ok: bool)
      requires Valid()
      modifies this`pos, data
      ensures Valid()
      ensures ok <==> old(pos) + |s| < data.Length
      ensures Text() == Clipped(old(Text()) + s, data.Length - 1)
    {
      var n := if |s| < data.Length - pos then |s| else data.Length - pos - 1;
      ok := |s| < data.Length - pos;
      forall i | pos <= i < pos + n {
        data[i] := s[i - pos];
      }
      pos := pos + n;
      assert data[..pos] == old(Text()) + s[..n];
    }
  }

  function Clipped(s: string, max: nat): string {
    if |s| <= max then s else s[..max]
  }
}
