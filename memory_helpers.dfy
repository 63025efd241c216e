/**
 * Guest memory as the marshaling helpers see it (androidemu.utils.memory_helpers).
 * Memory is a store of cells keyed by their start address: a cell holds either
 * the text written by write_utf8 or one 32-bit word written by write_uints.
 */
module MemoryHelpers {
  const NUL: char := '\0'

  /** Width in bytes of one word written by write_uints. */
  const WordSize: int := 4

  datatype Cell = Utf8(text: string) | Word(value: int)

  type Cells = map<int, Cell>

  /** The text a C reader sees: everything before the first NUL. */
  function TakeUntilNul(s: string): (r: string)
    ensures |r| <= |s| && r == s[..|r|]
    ensures NUL !in r
    ensures |r| < |s| ==> s[|r|] == NUL
  {
    if s == [] || s[0] == NUL then []
    else
      var rest := TakeUntilNul(s[1..]);
      assert s[1..][..|rest|] == s[1..|rest| + 1];
      [s[0]] + rest
  }

  /** read_utf8: the NUL-terminated string stored at p (empty where no string was written). */
  function ReadUtf8(c: Cells, p: int): (r: string)
    ensures NUL !in r
    ensures p in c && c[p].Utf8? ==> |r| <= |c[p].text| && r == c[p].text[..|r|]
    ensures p in c && c[p].Utf8? && |r| < |c[p].text| ==> c[p].text[|r|] == NUL
    ensures p !in c || c[p].Word? ==> r == []
  {
    if p in c && c[p].Utf8? then TakeUntilNul(c[p].text) else []
  }

  /** write_utf8: the text followed by its NUL terminator, stored at p. */
  function Utf8Written(c: Cells, p: int, s: string): (r: Cells)
    ensures r.Keys == c.Keys + {p}
    ensures forall a :: a in c && a != p ==> r[a] == c[a]
  {
    c[p := Utf8(s + [NUL])]
  }

  /** The address of the k-th word of an array of words that starts at p. */
  function Slot(p: int, k: int): int {
    p + WordSize * k
  }

  /** True when a is the address of one of the n words starting at p. */
  predicate IsSlot(a: int, p: int, n: nat) {
    p <= a < Slot(p, n) && (a - p) % WordSize == 0
  }

  /** write_uints: the words ws stored one after another from p. */
  function WordsWritten(c: Cells, p: int, ws: seq<int>): (r: Cells)
    ensures forall k :: 0 <= k < |ws| ==> Slot(p, k) in r && r[Slot(p, k)] == Word(ws[k])
    ensures forall a :: a in r <==> a in c || IsSlot(a, p, |ws|)
    ensures forall a :: a in c && !IsSlot(a, p, |ws|) ==> r[a] == c[a]
    decreases |ws|
  {
    if ws == [] then c
    else
      var r := WordsWritten(c[p := Word(ws[0])], p + WordSize, ws[1..]);
      assert forall k :: 1 <= k < |ws| ==> Slot(p, k) == Slot(p + WordSize, k - 1) && ws[k] == ws[1..][k - 1];
      assert forall a :: IsSlot(a, p, |ws|) <==> a == p || IsSlot(a, p + WordSize, |ws| - 1);
      r
  }

  /** A reader stops at the first NUL, whatever was written after it. */
  lemma ReadUtf8StopsAtNul(c: Cells, p: int, s: string, tail: string)
    requires NUL !in s
    requires tail == [] || tail[0] == NUL
    ensures ReadUtf8(Utf8Written(c, p, s + tail), p) == s
  {
    var t := s + tail + [NUL];
    assert t[|s|] == NUL && t[..|s|] == s;
  }

  /** Writing a string without NUL and reading it back gives the string. */
  lemma ReadUtf8AfterWrite(c: Cells, p: int, s: string)
    requires NUL !in s
    ensures ReadUtf8(Utf8Written(c, p, s), p) == s
  {
    ReadUtf8StopsAtNul(c, p, s, []);
    assert s + [] == s;
  }

  /** The unicorn handle `uc`: guest memory that the stubs read and write. */
  class GuestMemory {
    var cells: Cells

    constructor(initial: Cells)
      ensures cells == initial
    {
      cells := initial;
    }

    method WriteUtf8(p: int, s: string)
      modifies this
      ensures cells == Utf8Written(old(cells), p, s)
    {
      cells := Utf8Written(cells, p, s);
    }

    method WriteUints(p: int, ws: seq<int>)
      modifies this
      ensures cells == WordsWritten(old(cells), p, ws)
    {
      cells := WordsWritten(cells, p, ws);
    }
  }
}
