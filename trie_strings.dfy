/**
 * The two key buffers of the trie: `StringOfCharsZeroEnd`, a vector holding
 * the characters followed by a 0 terminator, and `StringOfCharsFixedLen`, a
 * vector holding exactly the characters. The vector is a sequence field that
 * the methods reassign. A source pointer that may be null is an
 * `Option<seq<char>>`; a pointer with a character count is a sequence at
 * least that long.
 */
module TrieStrings {
  import opened Wrappers

  /** `size_t` on a 64-bit target. */
  const SIZE_MAX: nat := 0xFFFF_FFFF_FFFF_FFFF

  /** `GetStrLen` (`strlen`/`wcslen`): the index of the first 0 in a zero-terminated buffer. */
  function GetStrLen(buf: seq<char>): (n: nat)
    requires '\0' in buf
    ensures n < |buf| && buf[n] == '\0'
    ensures '\0' !in buf[..n]
  {
    if buf[0] == '\0' then 0
    else
      assert '\0' in buf[1..] by { assert buf == [buf[0]] + buf[1..]; }
      var n := 1 + GetStrLen(buf[1..]);
      assert buf[..n] == [buf[0]] + buf[1..][..n - 1];
      n
  }

  /** The characters a zero-terminated source contributes; a null pointer contributes none. */
  function ZeroEndChars(zeroEndBuf: Option<seq<char>>): (s: seq<char>)
    requires zeroEndBuf.Some? ==> '\0' in zeroEndBuf.value
    ensures '\0' !in s
    ensures zeroEndBuf.Some? ==> s + ['\0'] <= zeroEndBuf.value
  {
    if zeroEndBuf.None? then [] else zeroEndBuf.value[..GetStrLen(zeroEndBuf.value)]
  }

  /** `StringOfCharsZeroEnd`: the characters followed by a terminating 0. */
  class ZeroEnd {
    var buf: seq<char>

    /** The terminator invariant: the buffer is never empty and ends in 0. */
    ghost predicate Valid()
      reads this
    {
      |buf| >= 1 && buf[|buf| - 1] == '\0'
    }

    /** The characters held, without the terminator. */
    ghost function Contents(): seq<char>
      reads this
      requires Valid()
    {
      buf[..|buf| - 1]
    }

    /** `intAssign`: n characters copied from `src`, then a 0. */
    method IntAssign(src: seq<char>, n: nat)
      requires n <= |src|
      modifies this
      ensures Valid() && Contents() == src[..n]
      ensures buf == src[..n] + ['\0']
    {
      buf := src[..n] + ['\0'];
    }

    /** Constructor from a zero-terminated buffer (null gives the empty string). */
    constructor (zeroEndBuf: Option<seq<char>>)
      requires zeroEndBuf.Some? ==> '\0' in zeroEndBuf.value
      ensures Valid() && Contents() == ZeroEndChars(zeroEndBuf)
    {
      var n := if zeroEndBuf.Some? then GetStrLen(zeroEndBuf.value) else 0;
      var src := if zeroEndBuf.Some? then zeroEndBuf.value else [];
      buf := src[..n] + ['\0'];
    }

    /** Copy constructor: copies `length()` characters of the other buffer. */
    constructor Copy(other: ZeroEnd)
      requires other.Valid()
      ensures Valid() && Contents() == other.Contents()
      ensures other.buf == old(other.buf)
    {
      buf := other.GetStr()[..other.Length()] + ['\0'];
    }

    /** Move constructor as written: the other buffer is left with an empty vector. */
    constructor MoveFrom(other: ZeroEnd)
      modifies other
      ensures buf == old(other.buf) && other.buf == []
    {
      buf := other.buf;
      new;
      other.buf := [];
    }

    /** Move constructor, corrected: the other buffer is left an empty string. */
    constructor MoveFromFixed(other: ZeroEnd)
      requires other.Valid()
      modifies other
      ensures Valid() && Contents() == old(other.Contents())
      ensures other.Valid() && other.Contents() == []
    {
      buf := other.buf;
      new;
      other.buf := ['\0'];
    }

    /** Move assignment as written. */
    method MoveAssign(other: ZeroEnd)
      requires other != this
      modifies this, other
      ensures buf == old(other.buf) && other.buf == []
    {
      buf := other.buf;
      other.buf := [];
    }

    /** `clear`: `intAssign(nullptr, 0)`. */
    method Clear()
      modifies this
      ensures Valid() && Contents() == [] && Length() == 0 && Empty()
    {
      IntAssign([], 0);
    }

    /** `assign(zeroEndBuf)`. */
    method Assign(zeroEndBuf: Option<seq<char>>)
      requires zeroEndBuf.Some? ==> '\0' in zeroEndBuf.value
      modifies this
      ensures Valid() && Contents() == ZeroEndChars(zeroEndBuf)
    {
      var n := if zeroEndBuf.Some? then GetStrLen(zeroEndBuf.value) else 0;
      IntAssign(if zeroEndBuf.Some? then zeroEndBuf.value else [], n);
    }

    /** `assign(buf, length)`. */
    method AssignN(src: seq<char>, n: nat)
      requires n <= |src|
      modifies this
      ensures Valid() && Contents() == src[..n] && Length() == n
    {
      IntAssign(src, n);
    }

    /** `appendChar`: drop the terminator, push the character, push a new terminator. */
    method AppendChar(c: char)
      requires |buf| >= 1
      modifies this
      ensures buf == old(buf[..|buf| - 1]) + [c, '\0']
      ensures old(Valid()) ==> Valid() && Contents() == old(Contents()) + [c]
      ensures Length() == old(Length()) + 1
    {
      buf := buf[..|buf| - 1] + [c] + ['\0'];
    }

    /** `getStr`: the whole vector, terminator included. */
    function GetStr(): (s: seq<char>)
      reads this
      ensures Valid() ==> s == Contents() + ['\0']
    {
      buf
    }

    /** `empty`: fewer than two entries in the vector. */
    function Empty(): (r: bool)
      reads this
      ensures Valid() ==> (r <==> |Contents()| == 0)
      ensures |buf| == 0 ==> r
    {
      |buf| < 2
    }

    /** `length`: `size() - 1` in `size_t`, so an empty vector gives `SIZE_MAX`. */
    function Length(): (n: nat)
      reads this
      ensures Valid() ==> n == |Contents()|
      ensures |buf| == 0 ==> n == SIZE_MAX
    {
      if |buf| == 0 then SIZE_MAX else |buf| - 1
    }

    /** `at`: the bounds-checked `vector::at`; `None` stands for the `out_of_range` exception. */
    function At(i: nat): (r: Option<char>)
      reads this
      ensures Valid() && i < |Contents()| ==> r == Some(Contents()[i])
      ensures Valid() && i == |Contents()| ==> r == Some('\0')
      ensures Valid() && i > |Contents()| ==> r == None
    {
      if i < |buf| then Some(buf[i]) else None
    }
  }

  /**
   * A moved-from zero-terminated buffer reports itself empty while its length
   * wraps to `SIZE_MAX`, so a loop over `at(i)` up to `length()` fails.
   */
  lemma {:induction false} MovedFromLengthWraps(z: ZeroEnd)
    requires z.buf == []
    ensures !z.Valid() && z.Empty() && z.Length() == SIZE_MAX && z.At(0) == None
  {
  }

  /** `StringOfCharsFixedLen`: exactly the characters, no terminator. */
  class FixedLen {
    var buf: seq<char>

    /** `intAssign`: exactly n characters copied from `src`. */
    method IntAssign(src: seq<char>, n: nat)
      requires n <= |src|
      modifies this
      ensures buf == src[..n]
    {
      buf := src[..n];
    }

    /** Default constructor: the empty string. */
    constructor ()
      ensures buf == []
    {
      buf := [];
    }

    /** Constructor from a buffer and a character count. */
    constructor FromBuf(src: seq<char>, n: nat)
      requires n <= |src|
      ensures buf == src[..n] && Length() == n
    {
      buf := src[..n];
    }

    /** Copy constructor as written: its body is empty, so nothing is copied. */
    constructor Copy(other: FixedLen)
      ensures buf == []
    {
      buf := [];
    }

    /** Copy constructor, corrected: the copy holds the other's characters. */
    constructor CopyFixed(other: FixedLen)
      ensures buf == other.buf && Length() == other.Length()
    {
      buf := other.buf;
    }

    /** Move constructor: takes the vector, the other is left empty (a valid empty string here). */
    constructor MoveFrom(other: FixedLen)
      modifies other
      ensures buf == old(other.buf) && other.buf == [] && other.Empty()
    {
      buf := other.buf;
      new;
      other.buf := [];
    }

    /** Move assignment: takes the vector, the other is left empty. */
    method MoveAssign(other: FixedLen)
      requires other != this
      modifies this, other
      ensures buf == old(other.buf) && other.buf == [] && other.Empty()
    {
      buf := other.buf;
      other.buf := [];
    }

    /** `clear`. */
    method Clear()
      modifies this
      ensures buf == [] && Length() == 0 && Empty()
    {
      IntAssign([], 0);
    }

    /** `assign(zeroEndBuf)`: the characters before the first 0, without it. */
    method Assign(zeroEndBuf: Option<seq<char>>)
      requires zeroEndBuf.Some? ==> '\0' in zeroEndBuf.value
      modifies this
      ensures buf == ZeroEndChars(zeroEndBuf)
    {
      var n := if zeroEndBuf.Some? then GetStrLen(zeroEndBuf.value) else 0;
      IntAssign(if zeroEndBuf.Some? then zeroEndBuf.value else [], n);
    }

    /** `assign(buf, length)` and `operator=`, which copies `other.getStr()` for `other.length()` characters. */
    method AssignN(src: seq<char>, n: nat)
      requires n <= |src|
      modifies this
      ensures buf == src[..n] && Length() == n
    {
      IntAssign(src, n);
    }

    /** `appendChar`: one `push_back`. */
    method AppendChar(c: char)
      modifies this
      ensures buf == old(buf) + [c]
      ensures Length() == old(Length()) + 1
    {
      buf := buf + [c];
    }

    /** `getStr`: the vector's characters themselves, with no terminator appended. */
    function GetStr(): (s: seq<char>)
      reads this
      ensures s == buf
    {
      buf
    }

    /** `empty`. */
    function Empty(): (r: bool)
      reads this
      ensures r <==> Length() == 0
    {
      |buf| == 0
    }

    /** `length`: the vector's size. */
    function Length(): (n: nat)
      reads this
      ensures n == |GetStr()|
    {
      |buf|
    }

    /** `at`: the bounds-checked `vector::at`. */
    function At(i: nat): (r: Option<char>)
      reads this
      ensures r.Some? <==> i < Length()
      ensures r.Some? ==> r.value == GetStr()[i]
    {
      if i < |buf| then Some(buf[i]) else None
    }
  }

  /**
   * The copy constructor of the fixed-length buffer loses the contents: a copy
   * of the one-character string "a" has length 0.
   */
  method CopyLosesContents() returns (originalLength: nat, copyLength: nat)
    ensures originalLength == 1 && copyLength == 0
  {
    var s := new FixedLen.FromBuf(['a'], 1);
    var c := new FixedLen.Copy(s);
    originalLength := s.Length();
    copyLength := c.Length();
  }

  /** The corrected copy keeps the contents. */
  method CopyFixedKeepsContents() returns (originalLength: nat, copyLength: nat)
    ensures originalLength == 1 && copyLength == 1
  {
    var s := new FixedLen.FromBuf(['a'], 1);
    var c := new FixedLen.CopyFixed(s);
    originalLength := s.Length();
    copyLength := c.Length();
  }
}
