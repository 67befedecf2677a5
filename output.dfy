/** Serialisation of the character buffer in `draw`: one string holding the
    whole grid, with a newline before every cell that starts a row. */
module Output {
  import opened Screen

  /** The text emitted for cells `s`, the first of which has linear index `n`:
      a newline precedes each cell whose index is a multiple of `Width`. */
  function Emit(s: seq<char>, n: nat): string
    decreases |s|
  {
    if |s| == 0 then ""
    else (if n % Width == 0 then "\n" else "") + [s[0]] + Emit(s[1..], n + 1)
  }

  /** Number of multiples of `Width` in `[0, n)`: the rows started before cell `n`. */
  function RowsBefore(n: nat): nat {
    (n + Width - 1) / Width
  }

  lemma RowsBeforeStep(n: nat)
    ensures RowsBefore(n + 1) == RowsBefore(n) + (if n % Width == 0 then 1 else 0)
  {
  }

  /** Position in the output of the newline that opens row `r`. */
  function NewlinePos(r: int): int {
    r * (Width + 1)
  }

  /** Position in the output of buffer cell `i`. */
  function CellPos(i: int): int {
    i + i / Width + 1
  }

  lemma {:induction false} EmitLength(s: seq<char>, n: nat)
    ensures |Emit(s, n)| == |s| + RowsBefore(n + |s|) - RowsBefore(n)
    decreases |s|
  {
    if |s| > 0 {
      EmitLength(s[1..], n + 1);
      RowsBeforeStep(n);
    }
  }

  lemma {:induction false} EmitCellAt(s: seq<char>, n: nat, j: nat)
    requires j < |s|
    ensures j + RowsBefore(n + j + 1) - RowsBefore(n) < |Emit(s, n)|
    ensures Emit(s, n)[j + RowsBefore(n + j + 1) - RowsBefore(n)] == s[j]
    decreases |s|
  {
    EmitLength(s, n);
    RowsBeforeStep(n);
    var head := (if n % Width == 0 then "\n" else "") + [s[0]];
    assert Emit(s, n) == head + Emit(s[1..], n + 1);
    if j > 0 {
      EmitCellAt(s[1..], n + 1, j - 1);
      RowsBeforeStep(n + j);
    }
  }

  lemma {:induction false} EmitNewlineAt(s: seq<char>, n: nat, j: nat)
    requires j < |s| && (n + j) % Width == 0
    ensures j + RowsBefore(n + j) - RowsBefore(n) < |Emit(s, n)|
    ensures Emit(s, n)[j + RowsBefore(n + j) - RowsBefore(n)] == '\n'
    decreases |s|
  {
    EmitLength(s, n);
    RowsBeforeStep(n);
    var head := (if n % Width == 0 then "\n" else "") + [s[0]];
    assert Emit(s, n) == head + Emit(s[1..], n + 1);
    if j > 0 {
      EmitNewlineAt(s[1..], n + 1, j - 1);
    }
  }

  /** The string with every newline deleted. */
  function StripNewlines(t: string): (r: string)
    ensures '\n' !in r
    ensures |r| <= |t|
  {
    if |t| == 0 then ""
    else (if t[0] == '\n' then "" else [t[0]]) + StripNewlines(t[1..])
  }

  lemma {:induction false} StripConcat(a: string, b: string)
    ensures StripNewlines(a + b) == StripNewlines(a) + StripNewlines(b)
    decreases |a|
  {
    if |a| == 0 {
      assert a + b == b;
    } else {
      assert (a + b)[1..] == a[1..] + b;
      StripConcat(a[1..], b);
    }
  }

  lemma {:induction false} StripEmit(s: seq<char>, n: nat)
    requires '\n' !in s
    ensures StripNewlines(Emit(s, n)) == s
    decreases |s|
  {
    if |s| > 0 {
      var nl := if n % Width == 0 then "\n" else "";
      assert Emit(s, n) == nl + ([s[0]] + Emit(s[1..], n + 1));
      StripConcat(nl, [s[0]] + Emit(s[1..], n + 1));
      StripConcat([s[0]], Emit(s[1..], n + 1));
      assert s[0] in s;
      assert '\n' !in s[1..] by {
        forall c | c in s[1..] ensures c in s { }
      }
      StripEmit(s[1..], n + 1);
      assert [s[0]] + s[1..] == s;
    }
  }

  /** The shape of a whole frame's text: `Height` newlines, one opening each
      row of `Width` cells, and the cells in order. */
  lemma FrameText(s: seq<char>)
    requires |s| == Cells
    ensures |Emit(s, 0)| == Cells + Height
    ensures forall i :: 0 <= i < Cells ==> CellPos(i) < |Emit(s, 0)| && Emit(s, 0)[CellPos(i)] == s[i]
    ensures forall r :: 0 <= r < Height ==> NewlinePos(r) < |Emit(s, 0)| && Emit(s, 0)[NewlinePos(r)] == '\n'
    ensures '\n' !in s ==> StripNewlines(Emit(s, 0)) == s
  {
    EmitLength(s, 0);
    forall i | 0 <= i < Cells
      ensures CellPos(i) < |Emit(s, 0)| && Emit(s, 0)[CellPos(i)] == s[i]
    {
      EmitCellAt(s, 0, i);
      assert RowsBefore(i + 1) == i / Width + 1;
    }
    forall r | 0 <= r < Height
      ensures NewlinePos(r) < |Emit(s, 0)| && Emit(s, 0)[NewlinePos(r)] == '\n'
    {
      var j := r * Width;
      assert j % Width == 0 && j < Cells;
      EmitNewlineAt(s, 0, j);
      assert RowsBefore(j) == r;
    }
    if '\n' !in s {
      StripEmit(s, 0);
    }
  }

  /** The string building of `draw`; the cursor escape and the write to the
      terminal are not modelled. */
  method Draw(buffer: array<char>) returns (outstring: string)
    requires buffer.Length == Cells
    ensures outstring == Emit(buffer[..], 0)
    ensures |outstring| == Cells + Height
    ensures forall i :: 0 <= i < Cells ==> outstring[CellPos(i)] == buffer[i]
    ensures forall r :: 0 <= r < Height ==> outstring[NewlinePos(r)] == '\n'
    ensures '\n' !in buffer[..] ==> StripNewlines(outstring) == buffer[..]
  {
    outstring := "";
    var i := 0;
    while i < Cells
      invariant 0 <= i <= Cells
      invariant outstring + Emit(buffer[i..], i) == Emit(buffer[..], 0)
    {
      assert buffer[i..][1..] == buffer[i + 1..];
      if i % Width == 0 {
        outstring := outstring + "\n";
      }
      outstring := outstring + [buffer[i]];
      i := i + 1;
    }
    assert buffer[i..] == [];
    assert outstring == Emit(buffer[..], 0);
    FrameText(buffer[..]);
  }
}
