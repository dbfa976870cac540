/** The tables the import writer fills: strings (CImageChars) and thunks (CImageThunks), each of a size fixed
    beforehand. */
module ImportTables {
  import opened Prelude
  import opened ImportSpec

  function Even(n: nat): (r: nat)
    ensures n <= r <= n + 1 && r % 2 == 0
  {
    n + n % 2
  }

  /** A terminated string, filled up to an even number of bytes. */
  function Padded(s: CString): (p: seq<Byte>)
    ensures |p| == Even(|s| + 1) && StringAt(p, 0, s)
  {
    var p: seq<Byte> := s + [0];
    if |p| % 2 == 0 then p else p + [0]
  }

  /** A hint and a string, filled up to an even number of bytes. */
  function Hinted(s: CString, hint: Word): (p: seq<Byte>)
    ensures |p| == Even(|s| + 3) && U16(p, 0) == hint && StringAt(p, 2, s)
  {
    [hint % 0x100, hint / 0x100] + Padded(s)
  }

  /** What was appended is found behind what was there. */
  lemma StringBehind(a: seq<Byte>, p: seq<Byte>, at: nat, s: seq<Byte>)
    requires StringAt(p, at, s)
    ensures StringAt(a + p, |a| + at, s)
  {
  }

  /** Behind n bytes, a hint and a string, and zeros from there on: together a hinted string appended. */
  lemma HintedIs(before: seq<Byte>, s: CString, hint: Word, tail: seq<Byte>, n: nat)
    requires n == |before| + Even(|s| + 3) <= |before| + |s| + 3 + |tail|
    requires forall i | 0 <= i < |tail| :: tail[i] == 0
    ensures (before + [hint % 0x100, hint / 0x100] + s + [0] + tail)[..n] == before + Hinted(s, hint)
  {
    var fill := n - |before| - |s| - 3;
    assert Padded(s) == s + [0] + tail[..fill];
    assert (before + [hint % 0x100, hint / 0x100] + s + [0] + tail)[..n] ==
           before + [hint % 0x100, hint / 0x100] + (s + [0] + tail[..fill]);
  }

  class NameTable {
    const area: array<Byte>
    const addr: nat
    var used: nat

    predicate Valid()
      reads this, area
    {
      used <= area.Length && forall i | used <= i < area.Length :: area[i] == 0
    }

    ghost function Text(): (t: seq<Byte>)
      reads this, area
      requires used <= area.Length
      ensures |t| == used
    {
      area[..used]
    }

    constructor (max: nat, at: nat)
      ensures Valid() && fresh(area) && area.Length == max && used == 0 && addr == at
    {
      var a := new Byte[max](_ => 0);
      area, addr, used := a, at, 0;
    }

    /** Put a string at a place where it fits; the bytes behind it are already zero. */
    method Put(at: nat, s: CString)
      requires at + |s| < area.Length
      modifies area
      ensures area[..] == old(area[..at]) + s + [0] + old(area[at + |s| + 1..])
    {
      forall i | 0 <= i < |s| {
        area[at + i] := s[i];
      }
      area[at + |s|] := 0;
    }

    /** Add a string, and give its address; 0 when it does not fit. */
    method Allocate(s: CString) returns (at: nat)
      requires Valid()
      modifies this`used, area
      ensures Valid()
      ensures old(used) + |Padded(s)| > area.Length ==> at == 0 && Text() == old(Text())
      ensures old(used) + |Padded(s)| <= area.Length ==> at == addr + old(used) && Text() == old(Text()) + Padded(s)
    {
      var len := |s| + 1;
      len := len + len % 2;
      if used + len > area.Length {
        at := 0;
        return;
      }
      at := addr + used;
      Put(used, s);
      used := used + len;
      assert Text() == old(Text()) + Padded(s);
    }

    /** Add a string behind a hint, and give the address of the hint; 0 when it does not fit. */
    method AllocateHinted(s: CString, hint: Word) returns (at: nat)
      requires Valid()
      modifies this`used, area
      ensures Valid()
      ensures old(used) + |Hinted(s, hint)| > area.Length ==> at == 0 && Text() == old(Text())
      ensures old(used) + |Hinted(s, hint)| <= area.Length ==>
                at == addr + old(used) && Text() == old(Text()) + Hinted(s, hint)
    {
      var len := |s| + 3;
      len := len + len % 2;
      if used + len > area.Length {
        at := 0;
        return;
      }
      at := addr + used;
      area[used], area[used + 1] := hint % 0x100, hint / 0x100;
      assert area[..used + 2] == old(Text()) + [hint % 0x100, hint / 0x100];
      ghost var tail := area[used + 2 + |s| + 1..];
      Put(used + 2, s);
      HintedIs(old(Text()), s, hint, tail, used + len);
      used := used + len;
    }
  }

  class ThunkTable {
    const area: array<nat>
    const addr: nat
    var used: nat

    predicate Valid()
      reads this
    {
      used <= area.Length
    }

    ghost function Thunks(): (t: seq<nat>)
      reads this, area
      requires Valid()
      ensures |t| == used
    {
      area[..used]
    }

    constructor (max: nat, at: nat)
      ensures Valid() && fresh(area) && area.Length == max && used == 0 && addr == at
    {
      var a := new nat[max](_ => 0);
      area, addr, used := a, at, 0;
    }

    /** The address of the next thunk, unless the table has room for one thunk only. */
    function Current(): nat
      reads this
    {
      if area.Length > 1 then addr + THUNK_SIZE * used else 0
    }

    /** Add a thunk, and give its address; 0 when the table is full. */
    method Allocate(data: nat) returns (at: nat)
      requires Valid()
      modifies this`used, area
      ensures Valid()
      ensures old(used) == area.Length ==> at == 0 && Thunks() == old(Thunks())
      ensures old(used) < area.Length ==> at == addr + THUNK_SIZE * old(used) && Thunks() == old(Thunks()) + [data]
    {
      if used < area.Length {
        at := addr + THUNK_SIZE * used;
        area[used] := data;
        used := used + 1;
      } else {
        at := 0;
      }
    }
  }
}
