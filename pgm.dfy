/**
 `save_pgm`: the text written for the image, in the plain ("P2") Netpbm
 grayscale format. A three-line header ("P2", the width and the height,
 the maximum value 255), then one line per image row holding each value in
 decimal followed by one blank. The file handle is not modelled, only the
 characters that go through it.

 The layout is stated over the words written (the `%d` text of each
 value), so that the lemmas about lines and tokens hold for any words
 free of whitespace. A plain-PGM reader over the same text undoes the
 writer: it reads the magic token, width, height and maximum value, then
 width x height samples, all separated by whitespace.
 */
module Pgm {
  import opened Text
  import opened Grid

  /** The three header lines: "P2", `"%d %d"` of WIDTH and HEIGHT, and "255". */
  function Header(): string
  {
    "P2\n" + (Decimal(Width) + " " + Decimal(Height) + "\n") + "255\n"
  }

  /** Words each followed by one blank, as a row's values are printed. */
  function Spaced(ws: seq<string>): string
  {
    if ws == [] then [] else Spaced(ws[..|ws| - 1]) + (ws[|ws| - 1] + " ")
  }

  /** Rows of words, each row spaced and then ended by a newline. */
  function Rows(wss: seq<seq<string>>): string
  {
    if wss == [] then [] else Rows(wss[..|wss| - 1]) + (Spaced(wss[|wss| - 1]) + "\n")
  }

  /** The `%d` text of each value, in order. */
  function DecimalsOf(xs: seq<int>): (ts: seq<string>)
    ensures |ts| == |xs|
  {
    seq(|xs|, k requires 0 <= k < |xs| => Decimal(xs[k]))
  }

  /** The `%d` text of every cell of g, row by row. */
  function Words(g: seq<seq<int>>): (wss: seq<seq<string>>)
    ensures |wss| == |g|
  {
    seq(|g|, i requires 0 <= i < |g| => DecimalsOf(g[i]))
  }

  /** The whole text `save_pgm` writes for the image g. */
  function PgmText(g: seq<seq<int>>): string
  {
    Header() + Rows(Words(g))
  }

  /** `save_pgm`: the header, then a nested loop over rows and columns. */
  method SavePgm(image: array2<int>) returns (text: string)
    requires image.Length0 == Height && image.Length1 == Width
    ensures text == PgmText(GridOf(image))
  {
    text := "P2\n";
    text := text + (Decimal(Width) + " " + Decimal(Height) + "\n");
    text := text + "255\n";
    ghost var wss := Words(GridOf(image));
    for i := 0 to Height
      invariant text == Header() + Rows(wss[..i])
    {
      ghost var ws, done := wss[i], text;
      for j := 0 to Width
        invariant text == done + Spaced(ws[..j])
      {
        var temp := image[i, j];
        ConcatAssoc(done, Spaced(ws[..j]), Decimal(temp) + " ");
        text := text + (Decimal(temp) + " ");
        SpacedSnoc(ws, j);
      }
      assert ws[..Width] == ws;
      ConcatAssoc(Header(), Rows(wss[..i]), Spaced(ws));
      ConcatAssoc(Header() + Rows(wss[..i]), Spaced(ws), "\n");
      ConcatAssoc(Header(), Rows(wss[..i]), Spaced(ws) + "\n");
      text := text + "\n";
      RowsSnoc(wss, i);
    }
    assert wss[..Height] == wss;
  }

  lemma SpacedSnoc(ws: seq<string>, j: int)
    requires 0 <= j < |ws|
    ensures Spaced(ws[..j + 1]) == Spaced(ws[..j]) + (ws[j] + " ")
  {
    assert ws[..j + 1][..j] == ws[..j];
  }

  lemma RowsSnoc(wss: seq<seq<string>>, i: int)
    requires 0 <= i < |wss|
    ensures Rows(wss[..i + 1]) == Rows(wss[..i]) + (Spaced(wss[i]) + "\n")
  {
    assert wss[..i + 1][..i] == wss[..i];
  }

  /** Words such as `%d` writes. */
  ghost predicate AreWords(ws: seq<string>)
  {
    forall k :: 0 <= k < |ws| ==> IsWord(ws[k])
  }

  lemma DecimalsAreWords(xs: seq<int>)
    ensures AreWords(DecimalsOf(xs))
  {
    forall k | 0 <= k < |xs|
      ensures IsWord(Decimal(xs[k]))
    {
      DecimalIsWord(xs[k]);
    }
  }

  lemma {:induction false} SpacedAppend(a: seq<string>, b: seq<string>)
    ensures Spaced(a + b) == Spaced(a) + Spaced(b)
    decreases |b|
  {
    if b != [] {
      var ab, b' := a + b, b[..|b| - 1];
      var last := b[|b| - 1] + " ";
      assert ab[..|ab| - 1] == a + b';
      assert ab[|ab| - 1] == b[|b| - 1];
      SpacedAppend(a, b');
      calc {
        Spaced(ab);
        Spaced(a + b') + last;
        (Spaced(a) + Spaced(b')) + last;
        Spaced(a) + (Spaced(b') + last);
      }
    } else {
      assert a + b == a;
    }
  }

  lemma {:induction false} RowsAppend(a: seq<seq<string>>, b: seq<seq<string>>)
    ensures Rows(a + b) == Rows(a) + Rows(b)
    decreases |b|
  {
    if b != [] {
      var ab, b' := a + b, b[..|b| - 1];
      var last := Spaced(b[|b| - 1]) + "\n";
      assert ab[..|ab| - 1] == a + b';
      assert ab[|ab| - 1] == b[|b| - 1];
      RowsAppend(a, b');
      calc {
        Rows(ab);
        Rows(a + b') + last;
        (Rows(a) + Rows(b')) + last;
        Rows(a) + (Rows(b') + last);
      }
    } else {
      assert a + b == a;
    }
  }

  /** Spaced words never contain a newline, so a row is a single line. */
  lemma {:induction false} SpacedOneLine(ws: seq<string>)
    requires AreWords(ws)
    ensures forall k :: 0 <= k < |Spaced(ws)| ==> !IsNewline(Spaced(ws)[k])
    decreases |ws|
  {
    if ws != [] {
      var ws' := ws[..|ws| - 1];
      assert AreWords(ws') by {
        assert forall k :: 0 <= k < |ws'| ==> ws'[k] == ws[k];
      }
      SpacedOneLine(ws');
      var w := ws[|ws| - 1];
      assert forall m :: 0 <= m < |w| ==> !IsSpace(w[m]);
      var s, t := Spaced(ws'), w + " ";
      assert Spaced(ws) == s + t;
      forall k | 0 <= k < |s + t|
        ensures !IsNewline((s + t)[k])
      {
        if k >= |s| {
          assert (s + t)[k] == t[k - |s|];
        }
      }
    }
  }

  /** The first of the spaced words, its blank, and the rest. */
  lemma SpacedCons(ws: seq<string>, tail: string)
    requires ws != []
    ensures Spaced(ws) + tail == ws[0] + ([' '] + (Spaced(ws[1..]) + tail))
  {
    var w, ws' := ws[0], ws[1..];
    assert ws == [w] + ws';
    SpacedAppend([w], ws');
    assert Spaced([w]) == w + " " by {
      assert [w][..0] == [];
    }
  }

  /** Spaced words read back as those words, in order. */
  lemma {:induction false} TokensOfSpaced(ws: seq<string>, tail: string)
    requires AreWords(ws)
    ensures Tokens(Spaced(ws) + tail) == ws + Tokens(tail)
    decreases |ws|
  {
    if ws != [] {
      var w, ws' := ws[0], ws[1..];
      assert AreWords(ws') by {
        assert forall k :: 0 <= k < |ws'| ==> ws'[k] == ws[k + 1];
      }
      var rest := Spaced(ws') + tail;
      calc {
        Tokens(Spaced(ws) + tail);
        { SpacedCons(ws, tail); }
        Tokens(w + ([' '] + rest));
        { TokensCons(w, [' '] + rest); }
        [w] + Tokens([' '] + rest);
        { TokensSkip(' ', rest); }
        [w] + Tokens(rest);
        { TokensOfSpaced(ws', tail); }
        [w] + (ws' + Tokens(tail));
        { assert ws == [w] + ws'; }
        ws + Tokens(tail);
      }
    } else {
      assert Spaced(ws) + tail == tail;
    }
  }

  /** The rows of g, one after the other. */
  function Flatten<T>(g: seq<seq<T>>): seq<T>
  {
    if g == [] then [] else g[0] + Flatten(g[1..])
  }

  /** The first row of words, its newline, and the rows after it. */
  lemma RowsCons(wss: seq<seq<string>>, tail: string)
    requires wss != []
    ensures Rows(wss) + tail == Spaced(wss[0]) + (['\n'] + (Rows(wss[1..]) + tail))
  {
    var ws, wss' := wss[0], wss[1..];
    assert wss == [ws] + wss';
    RowsAppend([ws], wss');
    assert Rows([ws]) == Spaced(ws) + "\n" by {
      assert [ws][..0] == [];
    }
  }

  /** Rows of words read back as all the words, row after row. */
  lemma {:induction false} TokensOfRows(wss: seq<seq<string>>, tail: string)
    requires forall i :: 0 <= i < |wss| ==> AreWords(wss[i])
    ensures Tokens(Rows(wss) + tail) == Flatten(wss) + Tokens(tail)
    decreases |wss|
  {
    if wss != [] {
      var ws, wss' := wss[0], wss[1..];
      var rest := Rows(wss') + tail;
      calc {
        Tokens(Rows(wss) + tail);
        { RowsCons(wss, tail); }
        Tokens(Spaced(ws) + (['\n'] + rest));
        { TokensOfSpaced(ws, ['\n'] + rest); }
        ws + Tokens(['\n'] + rest);
        { TokensSkip('\n', rest); }
        ws + Tokens(rest);
        { TokensOfRows(wss', tail); }
        ws + (Flatten(wss') + Tokens(tail));
        { assert Flatten(wss) == ws + Flatten(wss'); }
        Flatten(wss) + Tokens(tail);
      }
    } else {
      assert Rows(wss) + tail == tail;
    }
  }

  /** Each row of words, spaced, without its newline. */
  function SpacedRows(wss: seq<seq<string>>): (ls: seq<string>)
    ensures |ls| == |wss|
  {
    seq(|wss|, i requires 0 <= i < |wss| => Spaced(wss[i]))
  }

  lemma SpacedRowsCons(wss: seq<seq<string>>)
    requires wss != []
    ensures SpacedRows(wss) == [Spaced(wss[0])] + SpacedRows(wss[1..])
  {
  }

  /** Rows of words are one line each. */
  lemma {:induction false} LinesOfRows(wss: seq<seq<string>>)
    requires forall i :: 0 <= i < |wss| ==> AreWords(wss[i])
    ensures Lines(Rows(wss)) == SpacedRows(wss)
    decreases |wss|
  {
    if wss != [] {
      var ws, wss' := wss[0], wss[1..];
      calc {
        Lines(Rows(wss));
        { RowsCons(wss, []);
          assert Rows(wss) + [] == Rows(wss);
          assert Rows(wss') + [] == Rows(wss');
          ConcatAssoc(Spaced(ws), "\n", Rows(wss')); }
        Lines(Spaced(ws) + "\n" + Rows(wss'));
        { SpacedOneLine(ws); LinesCons(Spaced(ws), Rows(wss')); }
        [Spaced(ws)] + Lines(Rows(wss'));
        { LinesOfRows(wss'); }
        [Spaced(ws)] + SpacedRows(wss');
        { SpacedRowsCons(wss); }
        SpacedRows(wss);
      }
    } else {
      assert Rows(wss) == [];
    }
  }

  lemma {:induction false} FlattenWords(g: seq<seq<int>>)
    ensures Flatten(Words(g)) == DecimalsOf(Flatten(g))
    decreases |g|
  {
    if g != [] {
      FlattenWords(g[1..]);
      assert Words(g)[1..] == Words(g[1..]);
      assert DecimalsOf(Flatten(g)) == DecimalsOf(g[0]) + DecimalsOf(Flatten(g[1..]));
    }
  }

  lemma WordsAreWords(g: seq<seq<int>>)
    ensures forall i :: 0 <= i < |Words(g)| ==> AreWords(Words(g)[i])
  {
    forall i | 0 <= i < |g|
      ensures AreWords(Words(g)[i])
    {
      DecimalsAreWords(g[i]);
    }
  }

  /** The digits of the header's three numbers. */
  lemma HeaderNumbers()
    ensures Decimal(640) == "640" && Decimal(480) == "480" && Decimal(255) == "255"
  {
    assert Digits(6) == "6";
    assert Digits(64) == "64";
    assert Digits(4) == "4";
    assert Digits(48) == "48";
    assert Digits(2) == "2";
    assert Digits(25) == "25";
  }

  /** The header is the three lines "P2", "640 480" and "255". */
  lemma HeaderText()
    ensures Header() == "P2\n640 480\n255\n"
  {
    HeaderNumbers();
  }

  /** The header as its four words and the whitespace after each. */
  lemma HeaderShape()
    ensures "P2\n640 480\n255\n" == ("P2" + "\n") + ("640" + " " + "480" + "\n") + ("255" + "\n")
  {
  }

  /** Three newline-ended lines, before whatever follows them. */
  lemma LinesOfThree(a: string, x: string, v: string, b: string)
    requires forall k :: 0 <= k < |a| ==> !IsNewline(a[k])
    requires forall k :: 0 <= k < |x| ==> !IsNewline(x[k])
    requires forall k :: 0 <= k < |v| ==> !IsNewline(v[k])
    ensures Lines((a + "\n") + (x + "\n") + (v + "\n") + b) == [a, x, v] + Lines(b)
  {
    var s3 := v + "\n" + b;
    var s2 := x + "\n" + s3;
    calc {
      (a + "\n") + (x + "\n") + (v + "\n") + b;
      a + "\n" + s2;
    }
    LinesCons(a, s2);
    LinesCons(x, s3);
    LinesCons(v, b);
    PrependThree(a, x, v, Lines(b));
  }

  /** The header's tokens, for any four words, before whatever follows them. */
  lemma TokensOfFour(a: string, x: string, y: string, v: string, b: string)
    requires IsWord(a) && IsWord(x) && IsWord(y) && IsWord(v)
    ensures Tokens((a + "\n") + (x + " " + y + "\n") + (v + "\n") + b) == [a, x, y, v] + Tokens(b)
  {
    var s4 := v + ("\n" + b);
    var s3 := y + ("\n" + s4);
    var s2 := x + (" " + s3);
    calc {
      (a + "\n") + (x + " " + y + "\n") + (v + "\n") + b;
      a + ("\n" + s2);
    }
    TokensCons(a, "\n" + s2);
    TokensSkip('\n', s2);
    TokensCons(x, " " + s3);
    TokensSkip(' ', s3);
    TokensCons(y, "\n" + s4);
    TokensSkip('\n', s4);
    TokensCons(v, "\n" + b);
    TokensSkip('\n', b);
    PrependFour(a, x, y, v, Tokens(b));
  }

  /** The header's lines, before whatever follows it. */
  lemma LinesOfHeader(b: string)
    ensures Lines("P2\n640 480\n255\n" + b) == ["P2", "640 480", "255"] + Lines(b)
  {
    assert "P2\n640 480\n255\n" == ("P2" + "\n") + ("640 480" + "\n") + ("255" + "\n");
    LinesOfThree("P2", "640 480", "255", b);
  }

  /** The header's tokens, before whatever follows it. */
  lemma TokensOfHeader(b: string)
    ensures Tokens("P2\n640 480\n255\n" + b) == ["P2", "640", "480", "255"] + Tokens(b)
  {
    HeaderShape();
    TokensOfFour("P2", "640", "480", "255", b);
  }

  lemma PrependThree<T>(x0: T, x1: T, x2: T, t: seq<T>)
    ensures [x0] + ([x1] + ([x2] + t)) == [x0, x1, x2] + t
  {
  }

  lemma PrependFour<T>(x0: T, x1: T, x2: T, x3: T, t: seq<T>)
    ensures [x0] + ([x1] + ([x2] + ([x3] + t))) == [x0, x1, x2, x3] + t
  {
  }

  /**
   The line layout of the file: "P2", "640 480" and "255", then one line
   per row, which reads as that row's values in column order.
   */
  lemma LinesOfPgm(g: seq<seq<int>>)
    ensures |Lines(PgmText(g))| == 3 + |g|
    ensures Lines(PgmText(g))[..3] == ["P2", "640 480", "255"]
    ensures forall i :: 0 <= i < |g| ==> Tokens(Lines(PgmText(g))[3 + i]) == DecimalsOf(g[i])
  {
    var b := Rows(Words(g));
    var ls := Lines(PgmText(g));
    calc {
      ls;
      { HeaderText(); }
      Lines("P2\n640 480\n255\n" + b);
      { LinesOfHeader(b); }
      ["P2", "640 480", "255"] + Lines(b);
      { WordsAreWords(g); LinesOfRows(Words(g)); }
      ["P2", "640 480", "255"] + SpacedRows(Words(g));
    }
    forall i | 0 <= i < |g|
      ensures Tokens(ls[3 + i]) == DecimalsOf(g[i])
    {
      assert ls[3 + i] == Spaced(DecimalsOf(g[i]));
      DecimalsAreWords(g[i]);
      RowTokens(DecimalsOf(g[i]));
    }
  }

  /** A row's line, on its own, reads as that row's words. */
  lemma RowTokens(ws: seq<string>)
    requires AreWords(ws)
    ensures Tokens(Spaced(ws)) == ws
  {
    TokensOfSpaced(ws, []);
    assert Spaced(ws) + [] == Spaced(ws);
    assert ws + Tokens([]) == ws;
  }

  /** The whitespace-separated tokens of the file. */
  lemma TokensOfPgm(g: seq<seq<int>>)
    ensures Tokens(PgmText(g)) == ["P2", "640", "480", "255"] + DecimalsOf(Flatten(g))
  {
    HeaderText();
    var b := Rows(Words(g));
    TokensOfHeader(b);
    WordsAreWords(g);
    TokensOfRows(Words(g), []);
    assert b + [] == b;
    FlattenWords(g);
  }

  /** What a plain-PGM reader makes of a file. */
  datatype Raster = Raster(width: int, height: int, maxval: int, rows: seq<seq<int>>)

  /** A raster whose samples all lie between 0 and its maximum value. */
  ghost predicate ValidRaster(r: Raster)
  {
    && 0 < r.maxval < 65536
    && |r.rows| == r.height
    && (forall i :: 0 <= i < |r.rows| ==> |r.rows[i]| == r.width)
    && (forall i, j :: 0 <= i < |r.rows| && 0 <= j < |r.rows[i]| ==> 0 <= r.rows[i][j] <= r.maxval)
  }

  /** Reads every token as a decimal number, or fails. */
  function ParseAll(ts: seq<string>): (r: Option<seq<int>>)
    ensures r.Some? ==> |r.value| == |ts|
  {
    if ts == [] then Some([])
    else
      match (ParseInt(ts[0]), ParseAll(ts[1..]))
      case (Some(x), Some(xs)) => Some([x] + xs)
      case _ => None
  }

  /** Cuts the samples into rows of w values. */
  function Chunk(s: seq<int>, w: int): seq<seq<int>>
    requires w > 0
    decreases |s|
  {
    if |s| < w then [] else [s[..w]] + Chunk(s[w..], w)
  }

  /**
   The plain-PGM reader: the magic token "P2", the width, the height and
   the maximum value, then width x height samples.
   */
  function ReadPgm(s: string): Option<Raster>
  {
    var ts := Tokens(s);
    if |ts| < 4 || ts[0] != "P2" then None
    else
      match (ParseAll(ts[1..4]), ParseAll(ts[4..]))
      case (Some(header), Some(samples)) =>
        var w, h := header[0], header[1];
        if w <= 0 || h <= 0 || |samples| != w * h then None
        else Some(Raster(w, h, header[2], Chunk(samples, w)))
      case _ => None
  }

  lemma {:induction false} ParseDecimals(xs: seq<int>)
    ensures ParseAll(DecimalsOf(xs)) == Some(xs)
    decreases |xs|
  {
    if xs != [] {
      var ts := DecimalsOf(xs);
      assert ts[0] == Decimal(xs[0]);
      assert ts[1..] == DecimalsOf(xs[1..]);
      calc {
        ParseAll(ts);
        { DecimalRoundTrip(xs[0]); ParseDecimals(xs[1..]); }
        Some([xs[0]] + xs[1..]);
        { assert xs == [xs[0]] + xs[1..]; }
        Some(xs);
      }
    }
  }

  lemma {:induction false} ChunkFlatten(g: seq<seq<int>>)
    requires forall i :: 0 <= i < |g| ==> |g[i]| == Width
    ensures |Flatten(g)| == |g| * Width
    ensures Chunk(Flatten(g), Width) == g
    decreases |g|
  {
    if g != [] {
      ChunkFlatten(g[1..]);
      var s := Flatten(g);
      assert s[..Width] == g[0];
      assert s[Width..] == Flatten(g[1..]);
      assert g == [g[0]] + g[1..];
    }
  }

  /** Reading the written text back gives the dimensions, 255 and the image itself. */
  lemma PgmRoundTrip(g: seq<seq<int>>)
    requires IsGrid(g)
    ensures ReadPgm(PgmText(g)) == Some(Raster(Width, Height, 255, g))
  {
    TokensOfPgm(g);
    var ts := Tokens(PgmText(g));
    HeaderNumbers();
    assert ts[1..4] == DecimalsOf([640, 480, 255]);
    ParseDecimals([640, 480, 255]);
    assert ts[4..] == DecimalsOf(Flatten(g));
    ParseDecimals(Flatten(g));
    ChunkFlatten(g);
  }

  /**
   The file written for the rendered image reads back as that image, and
   it is a valid raster: no count exceeds the declared maximum 255, because
   none exceeds MAX_ITER = 255.
   */
  lemma RenderedFileValid()
    ensures ReadPgm(PgmText(Rendered())) == Some(Raster(Width, Height, 255, Rendered()))
    ensures ValidRaster(Raster(Width, Height, 255, Rendered()))
  {
    PgmRoundTrip(Rendered());
  }
}
