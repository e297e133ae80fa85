/** The text rendering of decoded pixels: one glyph per pixel, 'X' for an
    exactly white pixel and '.' for any other, laid out in rows of the image
    width. With a positive height the stored rows are printed last-stored
    first, each line ended by a newline; otherwise they are printed in stored
    order with a newline between rows and none at the end. */
module Render {
  import opened Pixels
  import Arith

  const White: char := 'X'
  const Black: char := '.'

  function Glyph(p: Pixel): (c: char)
    ensures c == White <==> p.IsWhite()
    ensures c == Black <==> !p.IsWhite()
  {
    if p.IsWhite() then White else Black
  }

  /** The glyphs of a row of pixels, one character per pixel, in order. */
  function Glyphs(ps: seq<Pixel>): (s: string)
    ensures |s| == |ps|
  {
    if ps == [] then "" else Glyphs(ps[..|ps| - 1]) + [Glyph(ps[|ps| - 1])]
  }

  /** Glyph i of a row is the glyph of pixel i. */
  lemma {:induction false} GlyphsAt(ps: seq<Pixel>)
    ensures forall i :: 0 <= i < |ps| ==> Glyphs(ps)[i] == Glyph(ps[i])
  {
    if ps != [] {
      GlyphsAt(ps[..|ps| - 1]);
    }
  }

  /** The pixels form whole rows of width w (no rows at all when empty). */
  predicate Shaped(ps: seq<Pixel>, w: int) {
    ps == [] || (w > 0 && |ps| % w == 0)
  }

  lemma ShapedRows(ps: seq<Pixel>, w: int, rows: int)
    requires w > 0 && |ps| == rows * w
    ensures Shaped(ps, w)
  {
    Arith.MulMod(rows, w);
  }

  /** Output for a positive height: the stored rows in reverse, each as a
      line of glyphs ended by a newline. Only whole rows are rendered; every
      caller passes a whole number of rows. */
  function BottomUp(ps: seq<Pixel>, w: int): string
    decreases |ps|
  {
    if w <= 0 || |ps| < w then ""
    else BottomUp(ps[w..], w) + Glyphs(ps[..w]) + "\n"
  }

  /** Output for a height of zero or less: the stored rows in order, joined
      by newlines. */
  function TopDown(ps: seq<Pixel>, w: int): string
    decreases |ps|
  {
    if w <= 0 || |ps| < w then ""
    else if |ps| == w then Glyphs(ps)
    else TopDown(ps[..|ps| - w], w) + "\n" + Glyphs(ps[|ps| - w..])
  }

  /** displayBMP's output: the sign of the height picks the row order. */
  function Text(ps: seq<Pixel>, w: int, h: int): string
  {
    if h > 0 then BottomUp(ps, w) else TopDown(ps, w)
  }

  /** Stored row r (0-based) of an image of width w. */
  function Row(ps: seq<Pixel>, w: nat, r: nat): seq<Pixel>
    requires (r + 1) * w <= |ps|
  {
    assert r * w + w == (r + 1) * w;
    ps[r * w..r * w + w]
  }

  /** Where line k of a rendering of `rows` lines of w glyphs sits, in terms
      of k * w and rows * w. */
  lemma LineBounds(w: nat, rows: nat, k: nat)
    requires k < rows
    ensures 0 <= k * w && k * w + w <= rows * w
    ensures k * (w + 1) == k * w + k && rows * (w + 1) == rows * w + rows
    ensures (k + 1) * w == k * w + w && (rows - k) * w == rows * w - k * w
  {
    Arith.MulMono(0, k, w);
    Arith.MulMono(k + 1, rows, w);
    Arith.MulSucc(k, w);
  }

  /** An image of rows > 0 rows has a first row, and rows - 1 rows after it. */
  lemma FirstRow(ps: seq<Pixel>, w: nat, rows: nat)
    requires w > 0 && |ps| == rows * w && rows > 0
    ensures w <= |ps| && |ps| - w == (rows - 1) * w
  {
    Arith.MulAtLeast(w, rows);
  }

  /** Dropping the first row shifts the row numbers down by one. */
  lemma RowOfRest(ps: seq<Pixel>, w: nat, r: nat)
    requires w <= |ps| && 1 <= r && (r + 1) * w <= |ps|
    ensures r * w <= |ps[w..]| && Row(ps[w..], w, r - 1) == Row(ps, w, r)
  {
    assert (r + 1) * w == r * w + w;
    assert r * w == (r - 1) * w + w;
  }

  /** A slice of a concatenation that ends inside or at the end of its first
      part, and the character just after it. */
  lemma PrefixSlice(x: string, y: string, i: nat, j: nat)
    requires i <= j <= |x| && j < |x| + |y|
    ensures (x + y)[i..j] == x[i..j]
    ensures (x + y)[j] == if j < |x| then x[j] else y[0]
  {
  }

  /** A bottom-up rendering has one glyph per pixel and one newline per row. */
  lemma {:induction false} BottomUpLength(ps: seq<Pixel>, w: nat, rows: nat)
    requires w > 0 && |ps| == rows * w
    ensures |BottomUp(ps, w)| == |ps| + rows
  {
    if rows > 0 {
      FirstRow(ps, w, rows);
      var rest := ps[w..];
      BottomUpLength(rest, w, rows - 1);
      assert |BottomUp(ps, w)| == |BottomUp(rest, w)| + w + 1;
    }
  }

  /** For a positive height, output line k (0-based) holds the glyphs of stored
      row rows - 1 - k, read left to right, followed by a newline: the last
      stored row comes out first. */
  lemma BottomUpLine(ps: seq<Pixel>, w: nat, rows: nat, k: nat)
    requires w > 0 && |ps| == rows * w && k < rows
    ensures |BottomUp(ps, w)| == rows * (w + 1)
    ensures 0 <= k * (w + 1) && k * (w + 1) + w + 1 <= rows * (w + 1) && (rows - k) * w <= |ps|
    ensures BottomUp(ps, w)[k * (w + 1)..k * (w + 1) + w] == Glyphs(Row(ps, w, rows - 1 - k))
    ensures BottomUp(ps, w)[k * (w + 1) + w] == '\n'
    decreases rows, 1
  {
    if k < rows - 1 {
      BottomUpUpperLine(ps, w, rows, k);
    } else {
      BottomUpLastLine(ps, w, rows, k);
    }
  }

  /** Every line but the last comes from the rendering of the rows above the
      first stored row. */
  lemma BottomUpUpperLine(ps: seq<Pixel>, w: nat, rows: nat, k: nat)
    requires w > 0 && |ps| == rows * w && k < rows - 1
    ensures |BottomUp(ps, w)| == rows * (w + 1)
    ensures 0 <= k * (w + 1) && k * (w + 1) + w + 1 <= rows * (w + 1) && (rows - k) * w <= |ps|
    ensures BottomUp(ps, w)[k * (w + 1)..k * (w + 1) + w] == Glyphs(Row(ps, w, rows - 1 - k))
    ensures BottomUp(ps, w)[k * (w + 1) + w] == '\n'
    decreases rows, 0
  {
    BottomUpLength(ps, w, rows);
    LineBounds(w, rows, k);
    FirstRow(ps, w, rows);
    var rest := ps[w..];
    var top := BottomUp(rest, w);
    assert BottomUp(ps, w) == top + (Glyphs(ps[..w]) + "\n");
    BottomUpLine(rest, w, rows - 1, k);
    var r := rows - 1 - k;
    Arith.MulMono(r + 1, rows, w);
    RowOfRest(ps, w, r);
    var at := k * (w + 1);
    PrefixSlice(top, Glyphs(ps[..w]) + "\n", at, at + w);
    assert top[at..at + w] == Glyphs(Row(rest, w, r - 1));
  }

  /** The last line is the first stored row. */
  lemma BottomUpLastLine(ps: seq<Pixel>, w: nat, rows: nat, k: nat)
    requires w > 0 && |ps| == rows * w && k == rows - 1
    ensures |BottomUp(ps, w)| == rows * (w + 1)
    ensures 0 <= k * (w + 1) && k * (w + 1) + w + 1 <= rows * (w + 1) && (rows - k) * w <= |ps|
    ensures BottomUp(ps, w)[k * (w + 1)..k * (w + 1) + w] == Glyphs(Row(ps, w, rows - 1 - k))
    ensures BottomUp(ps, w)[k * (w + 1) + w] == '\n'
  {
    BottomUpLength(ps, w, rows);
    LineBounds(w, rows, k);
    FirstRow(ps, w, rows);
    var rest := ps[w..];
    BottomUpLength(rest, w, rows - 1);
    var top := BottomUp(rest, w);
    assert |top| == k * (w + 1);
    assert Row(ps, w, 0) == ps[..w];
    assert BottomUp(ps, w) == top + Glyphs(ps[..w]) + "\n";
  }

  /** One more row at the end adds a newline and its glyphs. */
  lemma TopDownStepLength(ps: seq<Pixel>, w: nat)
    requires 0 < w < |ps|
    ensures |TopDown(ps, w)| == |TopDown(ps[..|ps| - w], w)| + 1 + w
  {
  }

  /** A top-down rendering of rows > 0 rows has one glyph per pixel and a
      newline between rows, none after the last. */
  lemma {:induction false} TopDownLength(ps: seq<Pixel>, w: nat, rows: nat)
    requires w > 0 && |ps| == rows * w && rows > 0
    ensures |TopDown(ps, w)| == |ps| + rows - 1
  {
    FirstRow(ps, w, rows);
    if rows > 1 {
      TopDownLength(ps[..|ps| - w], w, rows - 1);
      TopDownStepLength(ps, w);
    }
  }

  /** For a height of zero or less, output line k holds the glyphs of stored
      row k, followed by a newline unless it is the last line. */
  lemma TopDownLine(ps: seq<Pixel>, w: nat, rows: nat, k: nat)
    requires w > 0 && |ps| == rows * w && k < rows
    ensures |TopDown(ps, w)| == rows * (w + 1) - 1
    ensures 0 <= k * (w + 1) && k * (w + 1) + w <= rows * (w + 1) - 1 && (k + 1) * w <= |ps|
    ensures TopDown(ps, w)[k * (w + 1)..k * (w + 1) + w] == Glyphs(Row(ps, w, k))
    ensures k < rows - 1 ==> TopDown(ps, w)[k * (w + 1) + w] == '\n'
    decreases rows, 1
  {
    if k < rows - 1 {
      TopDownUpperLine(ps, w, rows, k);
    } else {
      TopDownLastLine(ps, w, rows, k);
    }
  }

  /** Dropping the last row leaves the other rows where they were. */
  lemma RowOfFront(ps: seq<Pixel>, w: nat, k: nat)
    requires w <= |ps| && (k + 1) * w <= |ps| - w
    ensures Row(ps[..|ps| - w], w, k) == Row(ps, w, k)
  {
  }

  /** A rendering of more than one row is that of all rows but the last, a
      newline, and the last row's glyphs. */
  lemma TopDownSplit(ps: seq<Pixel>, w: nat)
    requires 0 < w < |ps|
    ensures TopDown(ps, w) == TopDown(ps[..|ps| - w], w) + ("\n" + Glyphs(ps[|ps| - w..]))
  {
  }

  /** Every line but the last comes from the rendering of the rows before the
      last stored row. */
  lemma TopDownUpperLine(ps: seq<Pixel>, w: nat, rows: nat, k: nat)
    requires w > 0 && |ps| == rows * w && k < rows - 1
    ensures |TopDown(ps, w)| == rows * (w + 1) - 1
    ensures 0 <= k * (w + 1) && k * (w + 1) + w <= rows * (w + 1) - 1 && (k + 1) * w <= |ps|
    ensures TopDown(ps, w)[k * (w + 1)..k * (w + 1) + w] == Glyphs(Row(ps, w, k))
    ensures TopDown(ps, w)[k * (w + 1) + w] == '\n'
    decreases rows, 0
  {
    TopDownLength(ps, w, rows);
    LineBounds(w, rows, k);
    FirstRow(ps, w, rows);
    var front := ps[..|ps| - w];
    var head, last := TopDown(front, w), "\n" + Glyphs(ps[|ps| - w..]);
    TopDownSplit(ps, w);
    TopDownLength(front, w, rows - 1);
    TopDownLine(front, w, rows - 1, k);
    RowOfFront(ps, w, k);
    var at := k * (w + 1);
    PrefixSlice(head, last, at, at + w);
  }

  /** The last line is the last stored row, with no newline after it. */
  lemma TopDownLastLine(ps: seq<Pixel>, w: nat, rows: nat, k: nat)
    requires w > 0 && |ps| == rows * w && k == rows - 1
    ensures |TopDown(ps, w)| == rows * (w + 1) - 1
    ensures 0 <= k * (w + 1) && k * (w + 1) + w <= rows * (w + 1) - 1 && (k + 1) * w <= |ps|
    ensures TopDown(ps, w)[k * (w + 1)..k * (w + 1) + w] == Glyphs(Row(ps, w, k))
  {
    TopDownLength(ps, w, rows);
    LineBounds(w, rows, k);
    FirstRow(ps, w, rows);
    var out := TopDown(ps, w);
    assert k * w == |ps| - w;
    assert k * (w + 1) + w == |out|;
    assert Row(ps, w, k) == ps[|ps| - w..];
    if rows > 1 {
      FirstRow(ps[w..], w, rows - 1);
      var front := ps[..|ps| - w];
      assert |front| == (rows - 1) * w;
      TopDownLength(front, w, rows - 1);
      var head := TopDown(front, w);
      assert out == head + "\n" + Glyphs(ps[|ps| - w..]);
    }
  }

  /** The two-by-two bottom-up image whose stored rows are (black, white) and
      (white, black) renders as "X.\n.X\n". */
  lemma BottomUpExample()
    ensures BottomUp([Pixel(0, 0, 0), Pixel(255, 255, 255), Pixel(255, 255, 255), Pixel(0, 0, 0)], 2)
      == "X.\n.X\n"
  {
    var black, white := Pixel(0, 0, 0), Pixel(255, 255, 255);
    var ps := [black, white, white, black];
    assert ps[2..][2..] == [];
    assert Glyphs(ps[2..][..2]) == "X.";
    assert Glyphs(ps[..2]) == ".X";
  }

  /** The state of the positive-height branch after visiting the last v
      pixels, m of them in the row being filled: the rows completed so far
      (the last stored row first) have been emitted, and the last m cells of
      the reused row buffer hold the glyphs of that row, at their columns. */
  ghost predicate BottomUpState(ps: seq<Pixel>, w: int, v: nat, m: int, out: string, buf: seq<char>)
    requires w > 0 && v <= |ps|
  {
    0 <= m < w && m <= v && |buf| == w &&
    out == BottomUp(ps[|ps| - (v - m)..], w) &&
    (m > 0 ==> (v - m + w <= |ps| &&
      forall c :: w - m <= c < w ==> buf[c] == Glyph(ps[|ps| - (v - m) - w + c])))
  }

  lemma BottomUpStart(ps: seq<Pixel>, w: int, buf: seq<char>)
    requires w > 0 && |buf| == w
    ensures 0 % w == 0 && BottomUpState(ps, w, 0, 0, "", buf)
  {
    Arith.DivModUnique(0, w, 0, 0);
    assert ps[|ps|..] == [];
  }

  lemma BottomUpFinish(ps: seq<Pixel>, w: int, out: string, buf: seq<char>)
    requires w > 0 && Shaped(ps, w) && BottomUpState(ps, w, |ps|, |ps| % w, out, buf)
    ensures out == BottomUp(ps, w)
  {
    assert ps[0..] == ps;
  }

  /** Writing a glyph that does not complete its row extends the buffered
      part of the row by one cell. */
  lemma BottomUpSameRow(ps: seq<Pixel>, w: int, v: nat, m: nat, out: string, buf: seq<char>, buf': seq<char>)
    requires w > 0 && v < |ps| && m + 1 < w && v - m + w <= |ps|
    requires BottomUpState(ps, w, v, m, out, buf)
    requires buf' == buf[w - 1 - m := Glyph(ps[|ps| - 1 - v])]
    ensures BottomUpState(ps, w, v + 1, m + 1, out, buf')
  {
    var start := |ps| - (v - m) - w;
    assert |ps| - 1 - v == start + (w - 1 - m);
  }

  /** A buffer holding the glyphs of the row starting at `start` in every
      cell holds exactly that row's glyphs. */
  lemma BufferedRow(ps: seq<Pixel>, w: int, start: nat, buf: seq<char>)
    requires 0 < w && start + w <= |ps| && |buf| == w
    requires forall c :: 0 <= c < w ==> buf[c] == Glyph(ps[start + c])
    ensures buf == Glyphs(ps[start..start + w])
  {
    GlyphsAt(ps[start..start + w]);
  }

  /** Putting the row that starts at `start` before the rows after it
      renders it on the line after theirs. */
  lemma BottomUpPrepend(ps: seq<Pixel>, w: int, start: nat)
    requires 0 < w && start + w <= |ps|
    ensures BottomUp(ps[start..], w) == BottomUp(ps[start + w..], w) + Glyphs(ps[start..start + w]) + "\n"
  {
    var rest := ps[start..];
    assert rest[w..] == ps[start + w..];
    assert rest[..w] == ps[start..start + w];
  }

  /** Writing the first glyph of a row completes the buffer, and emitting it
      with a newline renders one more row. */
  lemma BottomUpRowDone(ps: seq<Pixel>, w: int, v: nat, m: nat, out: string, buf: seq<char>, buf': seq<char>)
    requires w > 0 && v < |ps| && m + 1 == w && v - m + w <= |ps|
    requires BottomUpState(ps, w, v, m, out, buf)
    requires buf' == buf[0 := Glyph(ps[|ps| - 1 - v])]
    ensures BottomUpState(ps, w, v + 1, 0, out + buf' + "\n", buf')
  {
    var start := |ps| - 1 - v;
    assert |ps| - (v - m) == start + w;
    BufferedRow(ps, w, start, buf');
    BottomUpPrepend(ps, w, start);
    assert |ps| - (v + 1) == start;
  }

  /** Visiting pixel p = |ps| - 1 - v writes its glyph at column p % w, which
      is its column in its row; once the row's first pixel is written the
      buffer holds the whole row, and emitting it extends the output by one
      line. */
  lemma BottomUpVisit(ps: seq<Pixel>, w: int, v: nat, out: string, buf: seq<char>, out': string, buf': seq<char>)
    requires w > 0 && Shaped(ps, w) && v < |ps| && BottomUpState(ps, w, v, v % w, out, buf)
    requires buf' == buf[(|ps| - 1 - v) % w := Glyph(ps[|ps| - 1 - v])]
    requires out' == if (v + 1) % w == 0 then out + buf' + "\n" else out
    ensures BottomUpState(ps, w, v + 1, (v + 1) % w, out', buf')
  {
    Arith.MirrorCol(|ps|, v, w);
    Arith.RowFits(|ps|, v, w);
    if v % w + 1 < w {
      Arith.SameRow(v, w);
      BottomUpSameRow(ps, w, v, v % w, out, buf, buf');
    } else {
      Arith.NextRow(v, w);
      BottomUpRowDone(ps, w, v, v % w, out, buf, buf');
    }
  }

  /** The positive-height branch of displayBMP: walk the pixels from the last
      one back to the first, writing each glyph into a reused row buffer at
      its column and emitting the buffer and a newline whenever a row is
      complete. */
  method DisplayBottomUp(ps: seq<Pixel>, w: int) returns (out: string)
    requires w >= 0 && Shaped(ps, w)
    ensures out == BottomUp(ps, w)
  {
    var n := |ps|;
    var buf := new char[w](_ => '0');
    out := "";
    if n > 0 {
      BottomUpStart(ps, w, buf[..]);
    }
    var i := 1;
    while i <= n
      invariant 1 <= i <= n + 1 && buf.Length == w
      invariant n > 0 ==> BottomUpState(ps, w, i - 1, (i - 1) % w, out, buf[..])
      invariant n == 0 ==> out == ""
    {
      ghost var out0, buf0 := out, buf[..];
      if ps[n - i].IsWhite() {
        buf[(n - i) % w] := White;
      } else {
        buf[(n - i) % w] := Black;
      }
      if i % w == 0 {
        out := out + buf[..] + "\n";
      }
      BottomUpVisit(ps, w, i - 1, out0, buf0, out, buf[..]);
      i := i + 1;
    }
    if n > 0 {
      BottomUpFinish(ps, w, out, buf[..]);
    }
  }

  /** The state of the other branch after visiting the first i pixels, m of
      them in the row under way: the completed rows joined by newlines, then,
      if a row is under way, a newline (unless it is the first row) and its
      glyphs so far. */
  ghost predicate TopDownState(ps: seq<Pixel>, w: int, i: nat, m: int, out: string)
    requires w > 0 && i <= |ps|
  {
    0 <= m < w && m <= i &&
    out == TopDown(ps[..i - m], w) + (if 0 < i - m < i then "\n" else "") + Glyphs(ps[i - m..i])
  }

  /** No rows render to nothing, and neither does an empty stretch of a row. */
  lemma NothingRendered(ps: seq<Pixel>, w: int, a: nat)
    requires a <= |ps|
    ensures TopDown(ps[..0], w) == "" && Glyphs(ps[a..a]) == ""
  {
    assert ps[..0] == [] && ps[a..a] == [];
  }

  lemma TopDownStart(ps: seq<Pixel>, w: int)
    requires w > 0
    ensures 0 % w == 0 && TopDownState(ps, w, 0, 0, "")
  {
    Arith.DivModUnique(0, w, 0, 0);
    assert ps[..0] == [] && ps[0..0] == [];
    assert TopDown([], w) == "" && Glyphs([]) == "";
  }

  lemma TopDownFinish(ps: seq<Pixel>, w: int, out: string)
    requires w > 0 && Shaped(ps, w) && TopDownState(ps, w, |ps|, |ps| % w, out)
    ensures out == TopDown(ps, w)
  {
    assert ps[..|ps|] == ps;
    assert ps[|ps|..|ps|] == [];
  }

  /** A glyph that does not end its row joins the row under way. */
  lemma TopDownSameRow(ps: seq<Pixel>, w: int, i: nat, m: nat, out: string)
    requires w > 0 && i < |ps| && m + 1 < w && TopDownState(ps, w, i, m, out)
    ensures TopDownState(ps, w, i + 1, m + 1,
      out + (if m == 0 && i > 0 then "\n" else "") + [Glyph(ps[i])])
  {
    GlyphsSnoc(ps, i - m, i);
    if m == 0 {
      assert ps[i..i] == [];
    }
  }

  /** Extending a stretch of pixels by one extends its glyphs by one. */
  lemma GlyphsSnoc(ps: seq<Pixel>, a: nat, b: nat)
    requires a <= b < |ps|
    ensures Glyphs(ps[a..b + 1]) == Glyphs(ps[a..b]) + [Glyph(ps[b])]
  {
    var row := ps[a..b + 1];
    assert row[..|row| - 1] == ps[a..b];
  }

  /** The top-down rendering of the first e = s + w pixels is that of the
      first s, a newline if there were any, and the glyphs of the last row. */
  lemma TopDownGrow(ps: seq<Pixel>, w: int, s: nat, e: nat)
    requires 0 < w && e == s + w <= |ps|
    ensures TopDown(ps[..e], w)
      == (if s > 0 then TopDown(ps[..s], w) + "\n" else "") + Glyphs(ps[s..e])
  {
    var q := ps[..e];
    assert q[..|q| - w] == ps[..s];
    assert q[|q| - w..] == ps[s..e];
    if s == 0 {
      assert q == ps[s..e];
    }
  }

  /** The string step behind completing a row: the output so far, the
      separator due before a row that starts a line after the first, and the
      last glyph make up the rendering up to the end of that row. */
  lemma JoinLastRow(t: string, before: string, g: string, after: string, later: bool, single: bool, out: string)
    requires after == before + g
    requires !later ==> t == ""
    requires single ==> before == []
    requires out == t + (if later && !single then "\n" else "") + before
    ensures out + (if single && later then "\n" else "") + g == (if later then t + "\n" else "") + after
  {
    if single {
      assert out == t;
    } else if later {
      assert out + "" + g == t + "\n" + (before + g);
    } else {
      assert out == before;
    }
  }

  /** The glyph that ends a row completes the rendering of every row up to
      it. */
  lemma RowCompleted(ps: seq<Pixel>, w: int, i: nat, m: nat, out: string)
    requires w > 0 && i < |ps| && m + 1 == w && m <= i
    requires out == TopDown(ps[..i - m], w) + (if 0 < i - m < i then "\n" else "") + Glyphs(ps[i - m..i])
    ensures out + (if m == 0 && i > 0 then "\n" else "") + [Glyph(ps[i])] == TopDown(ps[..i + 1], w)
  {
    if m == 0 {
      RowCompletedAlone(ps, w, i, m, out);
    } else if i - m > 0 {
      RowCompletedBelow(ps, w, i, m, out);
    } else {
      RowCompletedFirst(ps, w, i, m, out);
    }
  }

  /** One-pixel rows: the row is the glyph alone, after a newline unless it
      is the first. */
  lemma RowCompletedAlone(ps: seq<Pixel>, w: int, i: nat, m: nat, out: string)
    requires w > 0 && i < |ps| && m + 1 == w && m <= i
    requires out == TopDown(ps[..i - m], w) + (if 0 < i - m < i then "\n" else "") + Glyphs(ps[i - m..i])
    requires m == 0
    ensures out + (if m == 0 && i > 0 then "\n" else "") + [Glyph(ps[i])] == TopDown(ps[..i + 1], w)
  {
    var t, g := TopDown(ps[..i], w), [Glyph(ps[i])];
    var after := Glyphs(ps[i..i + 1]);
    GlyphsSnoc(ps, i, i);
    TopDownGrow(ps, w, i, i + 1);
    NothingRendered(ps, w, i);
    assert out == t;
    if i > 0 {
      JoinLastRow(t, "", g, after, true, true, out);
    } else {
      JoinLastRow(t, "", g, after, false, true, out);
    }
  }

  /** A row of several pixels below the first row. */
  lemma RowCompletedBelow(ps: seq<Pixel>, w: int, i: nat, m: nat, out: string)
    requires w > 0 && i < |ps| && m + 1 == w && m <= i
    requires out == TopDown(ps[..i - m], w) + (if 0 < i - m < i then "\n" else "") + Glyphs(ps[i - m..i])
    requires m > 0 && i - m > 0
    ensures out + (if m == 0 && i > 0 then "\n" else "") + [Glyph(ps[i])] == TopDown(ps[..i + 1], w)
  {
    var start := i - m;
    var t, g := TopDown(ps[..start], w), [Glyph(ps[i])];
    var before, after := Glyphs(ps[start..i]), Glyphs(ps[start..i + 1]);
    GlyphsSnoc(ps, start, i);
    TopDownGrow(ps, w, start, i + 1);
    JoinLastRow(t, before, g, after, true, false, out);
  }

  /** The first row, of several pixels. */
  lemma RowCompletedFirst(ps: seq<Pixel>, w: int, i: nat, m: nat, out: string)
    requires w > 0 && i < |ps| && m + 1 == w && m <= i
    requires out == TopDown(ps[..i - m], w) + (if 0 < i - m < i then "\n" else "") + Glyphs(ps[i - m..i])
    requires m > 0 && i - m == 0
    ensures out + (if m == 0 && i > 0 then "\n" else "") + [Glyph(ps[i])] == TopDown(ps[..i + 1], w)
  {
    var t, g := TopDown(ps[..0], w), [Glyph(ps[i])];
    var before, after := Glyphs(ps[0..i]), Glyphs(ps[0..i + 1]);
    GlyphsSnoc(ps, 0, i);
    TopDownGrow(ps, w, 0, i + 1);
    NothingRendered(ps, w, i);
    JoinLastRow(t, before, g, after, false, false, out);
  }

  /** A glyph that ends its row completes it: the output is then the
      rendering of every row so far. */
  lemma TopDownRowDone(ps: seq<Pixel>, w: int, i: nat, m: nat, out: string)
    requires w > 0 && i < |ps| && m + 1 == w && TopDownState(ps, w, i, m, out)
    ensures TopDownState(ps, w, i + 1, 0,
      out + (if m == 0 && i > 0 then "\n" else "") + [Glyph(ps[i])])
  {
    RowCompleted(ps, w, i, m, out);
    NothingRendered(ps, w, i + 1);
  }

  /** Visiting pixel i appends a newline when it starts a row other than the
      first, then its glyph. */
  lemma TopDownVisit(ps: seq<Pixel>, w: int, i: nat, out: string, out': string)
    requires w > 0 && i < |ps| && TopDownState(ps, w, i, i % w, out)
    requires out' == out + (if i % w == 0 && i > 0 then "\n" else "") + [Glyph(ps[i])]
    ensures TopDownState(ps, w, i + 1, (i + 1) % w, out')
  {
    if i % w + 1 < w {
      Arith.SameRow(i, w);
      TopDownSameRow(ps, w, i, i % w, out);
    } else {
      Arith.NextRow(i, w);
      TopDownRowDone(ps, w, i, i % w, out);
    }
  }

  /** The other branch of displayBMP: walk the pixels in stored order, writing
      a newline before each row but the first, then the pixel's glyph. */
  method DisplayTopDown(ps: seq<Pixel>, w: int) returns (out: string)
    requires Shaped(ps, w)
    ensures out == TopDown(ps, w)
  {
    var n := |ps|;
    out := "";
    if n > 0 {
      TopDownStart(ps, w);
    }
    var i := 0;
    while i < n
      invariant 0 <= i <= n
      invariant n > 0 ==> TopDownState(ps, w, i, i % w, out)
      invariant n == 0 ==> out == ""
    {
      ghost var out0 := out;
      if i % w == 0 && i > 0 {
        out := out + "\n";
      }
      if ps[i].IsWhite() {
        out := out + [White];
      } else {
        out := out + [Black];
      }
      TopDownVisit(ps, w, i, out0, out);
      i := i + 1;
    }
    if n > 0 {
      TopDownFinish(ps, w, out);
    }
  }
}
