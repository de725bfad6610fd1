/**
 * The colour planes of plotting.c: a resolution x by y and three separate
 * byte channels (red, green, blue) of x*y entries each, in
 * structure-of-arrays layout, with their constructor and deep copy.
 */
module Plotting {
  import opened Bytes

  class Colors {
    var x: Word
    var y: Word
    var size: nat
    /** `colors->red`, `colors->green`, `colors->blue`; null only for a plane taken away. */
    var red: array?<byte>
    var green: array?<byte>
    var blue: array?<byte>

    /**
     * What `create_colors` establishes: size == x*y, every present channel
     * holds size entries, and the three channels are separate buffers.
     */
    predicate Valid()
      reads this
    {
      && size == x * y
      && (red != null ==> red.Length == size)
      && (green != null ==> green.Length == size)
      && (blue != null ==> blue.Length == size)
      && (red != null && green != null ==> red != green)
      && (red != null && blue != null ==> red != blue)
      && (green != null && blue != null ==> green != blue)
    }

    /** All three channels are present. */
    predicate Complete()
      reads this
    {
      red != null && green != null && blue != null
    }

    constructor (x: Word, y: Word)
      ensures Valid() && Complete()
      ensures this.x == x && this.y == y && size == x * y
      ensures fresh(red) && fresh(green) && fresh(blue)
    {
      this.x := x;
      this.y := y;
      size := x * y;
      red := new byte[x * y];
      green := new byte[x * y];
      blue := new byte[x * y];
    }
  }

  /** create_colors: no planes for a zero dimension; otherwise fresh planes of x*y entries per channel. */
  method CreateColors(x: Word, y: Word) returns (c: Colors?)
    ensures c == null <==> x == 0 || y == 0
    ensures c != null ==> fresh(c) && fresh(c.red) && fresh(c.green) && fresh(c.blue)
    ensures c != null ==> c.Valid() && c.Complete()
    ensures c != null ==> c.x == x && c.y == y && c.size == x * y
  {
    if x == 0 || y == 0 {
      return null;
    }
    c := new Colors(x, y);
  }

  /** Two complete colour planes have the same resolution and the same bytes in every channel. */
  predicate SameColors(a: Colors, b: Colors)
    reads a, b, a.red, a.green, a.blue, b.red, b.green, b.blue
    requires a.Complete() && b.Complete()
  {
    && a.x == b.x && a.y == b.y && a.size == b.size
    && a.red[..] == b.red[..] && a.green[..] == b.green[..] && a.blue[..] == b.blue[..]
  }

  /**
   * copy_colors: no copy of missing planes or of a plane with a missing
   * channel (nor when create_colors refuses the dimensions); otherwise
   * fresh planes of the same resolution holding the same bytes, the
   * original left as it was.
   */
  method CopyColors(c: Colors?) returns (copy: Colors?)
    requires c != null ==> c.Valid()
    ensures copy == null <==> c == null || !c.Complete() || c.x == 0 || c.y == 0
    ensures copy != null ==> fresh(copy) && fresh(copy.red) && fresh(copy.green) && fresh(copy.blue)
    ensures copy != null ==> copy.Valid() && copy.Complete()
    ensures copy != null ==> c != null && c.Complete() && SameColors(copy, c)
  {
    if c == null || c.red == null || c.green == null || c.blue == null {
      return null;
    }
    copy := CreateColors(c.x, c.y);
    if copy == null {
      return null;
    }
    forall i | 0 <= i < c.size {
      copy.red[i] := c.red[i];
    }
    forall i | 0 <= i < c.size {
      copy.green[i] := c.green[i];
    }
    forall i | 0 <= i < c.size {
      copy.blue[i] := c.blue[i];
    }
  }
}
