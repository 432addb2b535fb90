/** The two `InputBuffer` implementations `Transport::receive` reads from. */
module InputBuffers {
  import opened Types

  /** `SliceInputBuffer`: a borrowed slice; popping reslices it. */
  class SliceInputBuffer {
    var buffer: seq<u8>

    /** `new(buffer)`. */
    constructor (s: seq<u8>)
      ensures Data() == s
    {
      buffer := s;
    }

    /** `data()`. */
    function Data(): seq<u8>
      reads this
    {
      buffer
    }

    /** `available()`: the trait default, `data().len()`. */
    function Available(): (n: nat)
      reads this
      ensures n == |Data()|
    {
      |Data()|
    }

    /** `pop(count)`: drop `min(count, len)` bytes from the front. */
    method Pop(count: nat)
      modifies this
      ensures Data() == old(Data())[Min(count, |old(Data())|)..]
    {
      var n := Min(count, |buffer|);
      buffer := buffer[n..];
    }
  }

  /** The `Vec<u8>` implementation: `pop` splices the front out, and panics
      when asked for more than the vector holds. */
  class VecInputBuffer {
    var data: seq<u8>

    constructor (s: seq<u8>)
      ensures Data() == s
    {
      data := s;
    }

    /** `data()`: `&self[..]`. */
    function Data(): seq<u8>
      reads this
    {
      data
    }

    /** `available()`: overridden as `len()`, which is the same as the default. */
    function Available(): (n: nat)
      reads this
      ensures n == |Data()|
    {
      |data|
    }

    /** `pop(count)`: `splice(0..count, empty)`. The range must lie inside the vector. */
    method Pop(count: nat)
      requires count <= |Data()|
      modifies this
      ensures Data() == old(Data())[count..]
      ensures old(Data()) == old(Data())[..count] + Data()
    {
      data := data[count..];
    }
  }
}
