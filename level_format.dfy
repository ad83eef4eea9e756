/** The value-level parts of level loading: Convert.ToInt32, the CSV tile
    layer, the map header checks, the id-to-constructor registry and the
    ground-decal placement rule. Module World drives level loading with
    loops proved against these functions. */
module LevelFormat {
  import opened Wrappers
  import opened TilesetConstructor
  import opened Adjacency

  /** One constructor per exception or failed assertion of level loading. */
  datatype LevelError =
    | FormatException          // Convert.ToInt32: not an integer
    | OverflowException        // Convert.ToInt32 out of range, or a negative array size
    | WrongLayerCount          // not exactly one tile layer
    | LayerSizeMismatch        // layer size differs from the map size
    | NotCsvEncoding           // layer data not CSV
    | NotAnEntityType          // attribute on a constructor of a non-Entity class
    | DuplicateTilesetId(id: int)
    | ConstructorArgumentMismatch // Invoke with arguments the constructor does not take
    | IndexOutOfRange          // grid write outside the array
    | CellOccupied             // MakeEntity's Debug.Assert on an occupied cell
    | CombineFailed(reason: CombineError) // TaggingLocation.CombineWith

  // ---------------------------------------------------------------------
  // Convert.ToInt32(string)

  const Int32Min: int := -2147483648
  const Int32Max: int := 2147483647

  /** The white space NumberStyles.Integer skips: U+0009 to U+000D and U+0020. */
  predicate IsWhite(c: char) {
    c == ' ' || ('\t' <= c <= '\r')
  }

  predicate IsDigit(c: char) {
    '0' as int <= c as int <= '9' as int
  }

  /** Every character of `s` is a decimal digit (stated from the back, the
      way DigitsValue reads the digits). */
  predicate AllDigits(s: string) {
    s == [] || (AllDigits(s[..|s| - 1]) && IsDigit(s[|s| - 1]))
  }

  function TrimStart(s: string): string {
    if s != [] && IsWhite(s[0]) then TrimStart(s[1..]) else s
  }

  function TrimEnd(s: string): string {
    if s != [] && IsWhite(s[|s| - 1]) then TrimEnd(s[..|s| - 1]) else s
  }

  /** TrimStart drops a prefix, and what remains does not start with white
      space. */
  lemma {:induction false} TrimStartSuffix(s: string)
    ensures |TrimStart(s)| <= |s| && TrimStart(s) == s[|s| - |TrimStart(s)|..]
    ensures TrimStart(s) != [] ==> !IsWhite(TrimStart(s)[0])
  {
    if s != [] && IsWhite(s[0]) {
      TrimStartSuffix(s[1..]);
    }
  }

  /** TrimEnd drops a suffix, and what remains does not end with white
      space. */
  lemma {:induction false} TrimEndPrefix(s: string)
    ensures |TrimEnd(s)| <= |s| && TrimEnd(s) == s[..|TrimEnd(s)|]
    ensures TrimEnd(s) != [] ==> !IsWhite(TrimEnd(s)[|TrimEnd(s)| - 1])
  {
    if s != [] && IsWhite(s[|s| - 1]) {
      TrimEndPrefix(s[..|s| - 1]);
    }
  }

  function DigitValue(c: char): nat
    requires IsDigit(c)
  {
    (c as int) - ('0' as int)
  }

  function DigitsValue(s: string): nat
    requires AllDigits(s)
  {
    if s == [] then 0 else DigitsValue(s[..|s| - 1]) * 10 + DigitValue(s[|s| - 1])
  }

  /** Convert.ToInt32 of a non-null string: optional white space, an
      optional sign, at least one decimal digit, optional white space;
      a well-formed number outside the Int32 range overflows. */
  function ParseInt32(s: string): (r: Result<int, LevelError>)
    ensures r.Success? ==> Int32Min <= r.value <= Int32Max
    ensures r.Failure? ==> r.error == FormatException || r.error == OverflowException
  {
    ParseSigned(TrimEnd(TrimStart(s)))
  }

  /** The sign and digits once the white space is gone. */
  function ParseSigned(t: string): (r: Result<int, LevelError>)
    ensures r.Success? ==> Int32Min <= r.value <= Int32Max
    ensures r.Failure? ==> r.error == FormatException || r.error == OverflowException
  {
    var negative := |t| > 0 && t[0] == '-';
    var digits := if |t| > 0 && (t[0] == '-' || t[0] == '+') then t[1..] else t;
    if |digits| == 0 || !AllDigits(digits) then Failure(FormatException)
    else
      var value: int := DigitsValue(digits);
      var v := if negative then -value else value;
      if v < Int32Min || v > Int32Max then Failure(OverflowException) else Success(v)
  }

  /** The decimal rendering of an integer, the form the tile data uses. */
  function DecimalString(n: int): (s: string)
    ensures |s| >= 1 && !IsWhite(s[0]) && !IsWhite(s[|s| - 1])
  {
    if n < 0 then "-" + Digits(-n) else Digits(n)
  }

  function Digits(n: nat): (s: string)
    ensures |s| >= 1 && AllDigits(s) && IsDigit(s[0])
  {
    if n < 10 then
      assert [('0' as int + n) as char][..0] == [];
      [('0' as int + n) as char]
    else
      var front := Digits(n / 10);
      assert (front + [('0' as int + n % 10) as char])[..|front|] == front;
      front + [('0' as int + n % 10) as char]
  }

  lemma {:induction false} DigitsValueOfDigits(n: nat)
    ensures DigitsValue(Digits(n)) == n
  {
    if n >= 10 {
      DigitsValueOfDigits(n / 10);
      var s := Digits(n);
      assert s[..|s| - 1] == Digits(n / 10);
    }
  }

  lemma ParseSignedDecimal(n: int)
    requires Int32Min <= n <= Int32Max
    ensures ParseSigned(DecimalString(n)) == Success(n)
  {
    var s := DecimalString(n);
    if n < 0 {
      var d := Digits(-n);
      DigitsValueOfDigits(-n);
      assert s[0] == '-' && s[1..] == d;
      assert |d| > 0 && AllDigits(d) && DigitsValue(d) == -n;
    } else {
      DigitsValueOfDigits(n);
      assert s[0] != '-' && s[0] != '+';
    }
  }

  /** Every Int32 written in decimal parses back to itself. */
  lemma ParseDecimalRoundTrip(n: int)
    requires Int32Min <= n <= Int32Max
    ensures ParseInt32(DecimalString(n)) == Success(n)
  {
    var s := DecimalString(n);
    ParseSignedDecimal(n);
    TrimStartPadding([], s);
    assert [] + s == s;
    TrimEndPadding(s, []);
    assert s + [] == s;
    assert TrimEnd(TrimStart(s)) == s;
  }

  /** White space around the rendering does not change the value. */
  lemma ParsePaddedDecimal(pad: string, n: int)
    requires forall i :: 0 <= i < |pad| ==> IsWhite(pad[i])
    requires Int32Min <= n <= Int32Max
    ensures ParseInt32(pad + DecimalString(n) + pad) == Success(n)
  {
    var s := DecimalString(n);
    ParseSignedDecimal(n);
    TrimStartPadding(pad, s + pad);
    assert pad + s + pad == pad + (s + pad);
    TrimEndPadding(s, pad);
    assert TrimEnd(TrimStart(pad + s + pad)) == s;
  }

  lemma {:induction false} TrimStartPadding(pad: string, s: string)
    requires forall i :: 0 <= i < |pad| ==> IsWhite(pad[i])
    requires s != [] && !IsWhite(s[0])
    ensures TrimStart(pad + s) == s
  {
    if pad != [] {
      assert (pad + s)[1..] == pad[1..] + s;
      TrimStartPadding(pad[1..], s);
    } else {
      assert pad + s == s;
    }
  }

  lemma {:induction false} TrimEndPadding(s: string, pad: string)
    requires forall i :: 0 <= i < |pad| ==> IsWhite(pad[i])
    requires s != [] && !IsWhite(s[|s| - 1])
    ensures TrimEnd(s + pad) == s
    decreases |pad|
  {
    if pad != [] {
      assert (s + pad)[..|s + pad| - 1] == s + pad[..|pad| - 1];
      TrimEndPadding(s, pad[..|pad| - 1]);
    } else {
      assert s + pad == s;
    }
  }

  // ---------------------------------------------------------------------
  // Splitting

  /** string.Replace("\r", ""). */
  function RemoveCarriageReturns(s: string): (r: string)
    ensures '\r' !in r
    ensures '\r' !in s ==> r == s
  {
    RemoveCharMembers(s, '\r');
    RemoveChar(s, '\r')
  }

  /** The length of the run before the first separator. */
  function FieldLength(s: string, sep: char): (n: nat)
    ensures n <= |s|
    ensures forall i :: 0 <= i < n ==> s[i] != sep
    ensures n < |s| ==> s[n] == sep
  {
    if s == [] || s[0] == sep then 0 else 1 + FieldLength(s[1..], sep)
  }

  /** string.Split(new[] { sep }, StringSplitOptions.RemoveEmptyEntries). */
  function SplitNonEmpty(s: string, sep: char): (pieces: seq<string>)
    ensures forall i :: 0 <= i < |pieces| ==> pieces[i] != [] && sep !in pieces[i]
    decreases |s|
  {
    if s == [] then []
    else if s[0] == sep then SplitNonEmpty(s[1..], sep)
    else
      var n := FieldLength(s, sep);
      [s[..n]] + SplitNonEmpty(s[n..], sep)
  }

  /** The pieces with one separator between neighbours. */
  function Join(pieces: seq<string>, sep: char): string {
    if pieces == [] then []
    else if |pieces| == 1 then pieces[0]
    else pieces[0] + [sep] + Join(pieces[1..], sep)
  }

  function Concat(pieces: seq<string>): string {
    if pieces == [] then [] else pieces[0] + Concat(pieces[1..])
  }

  /** The text without any occurrence of `c`. */
  function RemoveChar(s: string, c: char): (r: string)
    ensures c !in s ==> r == s
  {
    if s == [] then [] else (if s[0] == c then [] else [s[0]]) + RemoveChar(s[1..], c)
  }

  /** A character occurs in RemoveChar(s, c) iff it occurs in s and is not
      c. */
  lemma {:induction false} RemoveCharMembers(s: string, c: char)
    ensures forall d :: d in RemoveChar(s, c) <==> d in s && d != c
  {
    if s != [] {
      RemoveCharMembers(s[1..], c);
      assert s == [s[0]] + s[1..];
    }
  }

  lemma {:induction false} RemoveCharAppend(a: string, b: string, c: char)
    ensures RemoveChar(a + b, c) == RemoveChar(a, c) + RemoveChar(b, c)
  {
    if a != [] {
      assert (a + b)[1..] == a[1..] + b;
      RemoveCharAppend(a[1..], b, c);
    } else {
      assert a + b == b;
    }
  }

  /** Splitting loses exactly the separators. */
  lemma {:induction false} SplitKeepsAllButSeparators(s: string, sep: char)
    ensures Concat(SplitNonEmpty(s, sep)) == RemoveChar(s, sep)
    decreases |s|
  {
    if s != [] {
      if s[0] == sep {
        SplitKeepsAllButSeparators(s[1..], sep);
      } else {
        var n := FieldLength(s, sep);
        SplitKeepsAllButSeparators(s[n..], sep);
        assert s == s[..n] + s[n..];
        RemoveCharAppend(s[..n], s[n..], sep);
        assert sep !in s[..n];
        assert SplitNonEmpty(s, sep)[1..] == SplitNonEmpty(s[n..], sep);
      }
    }
  }

  /** Non-empty, separator-free pieces joined with the separator split back
      into the same pieces. */
  lemma {:induction false} SplitJoinRoundTrip(pieces: seq<string>, sep: char)
    requires forall i :: 0 <= i < |pieces| ==> pieces[i] != [] && sep !in pieces[i]
    ensures SplitNonEmpty(Join(pieces, sep), sep) == pieces
  {
    if pieces != [] {
      var p := pieces[0];
      assert p[0] != sep by { assert p[0] in p; }
      if |pieces| == 1 {
        assert Join(pieces, sep) == p;
        assert SplitNonEmpty(p, sep) == [p] + [] by {
          assert p[..|p|] == p && p[|p|..] == [];
        }
        assert [p] + [] == pieces;
      } else {
        var rest := [sep] + Join(pieces[1..], sep);
        var s := p + rest;
        assert Join(pieces, sep) == s;
        assert SplitNonEmpty(s, sep) == [p] + SplitNonEmpty(rest, sep) by {
          FieldLengthOfPiece(p, rest, sep);
          assert s[..|p|] == p && s[|p|..] == rest;
        }
        assert SplitNonEmpty(rest, sep) == pieces[1..] by {
          SplitJoinRoundTrip(pieces[1..], sep);
          assert rest[1..] == Join(pieces[1..], sep);
        }
        assert pieces == [p] + pieces[1..];
      }
    }
  }

  lemma {:induction false} FieldLengthOfPiece(p: string, rest: string, sep: char)
    requires sep !in p
    requires rest == [] || rest[0] == sep
    ensures FieldLength(p + rest, sep) == |p|
  {
    if p != [] {
      assert (p + rest)[1..] == p[1..] + rest;
      FieldLengthOfPiece(p[1..], rest, sep);
    } else {
      assert p + rest == rest;
    }
  }

  // ---------------------------------------------------------------------
  // The CSV tile layer

  /** A token with the coordinates ProcessCsv gives it. */
  datatype Token = Token(text: string, x: int, y: int)

  /** What ProcessCsv asks MakeEntity for. */
  datatype Placement = Placement(id: int, x: int, y: int)

  /** The non-empty lines of the layer text, carriage returns removed. */
  function CsvLines(csv: string): seq<string> {
    SplitNonEmpty(RemoveCarriageReturns(csv), '\n')
  }

  /** The tokens of line `y`: the k-th at (k, y). */
  function LineTokens(line: string, y: int): (ts: seq<Token>)
    ensures |ts| == |SplitNonEmpty(line, ',')|
    ensures forall k :: 0 <= k < |ts| ==> ts[k] == Token(SplitNonEmpty(line, ',')[k], k, y)
  {
    var pieces := SplitNonEmpty(line, ',');
    seq(|pieces|, k requires 0 <= k < |pieces| => Token(pieces[k], k, y))
  }

  /** The tokens of all lines in order. */
  function AllTokens(lines: seq<string>): seq<Token> {
    if lines == [] then []
    else AllTokens(lines[..|lines| - 1]) + LineTokens(lines[|lines| - 1], |lines| - 1)
  }

  function TokensOf(csv: string): seq<Token> {
    AllTokens(CsvLines(csv))
  }

  /** The number of tokens on the first `j` lines. */
  function TokenOffset(lines: seq<string>, j: nat): nat
    requires j <= |lines|
  {
    |AllTokens(lines[..j])|
  }

  /** The tokens of the first lines are a prefix of all tokens. */
  lemma {:induction false} AllTokensPrefix(lines: seq<string>, j: nat)
    requires j <= |lines|
    ensures AllTokens(lines[..j]) <= AllTokens(lines)
    decreases |lines| - j
  {
    if j < |lines| {
      AllTokensPrefix(lines, j + 1);
      assert lines[..j + 1][..j] == lines[..j];
    } else {
      assert lines[..j] == lines;
    }
  }

  /** The tokens of the first j + 1 lines: those of the first j, then line j's. */
  lemma AllTokensStep(lines: seq<string>, j: nat)
    requires j < |lines|
    ensures AllTokens(lines[..j + 1]) == AllTokens(lines[..j]) + LineTokens(lines[j], j)
  {
    assert lines[..j + 1][..j] == lines[..j];
  }

  /** The k-th of the tokens of line y that start at position `start`. */
  lemma LineTokenAt(ts: seq<Token>, start: nat, tokens: seq<string>, y: int, k: nat)
    requires start + |tokens| <= |ts| && k < |tokens|
    requires forall k :: 0 <= k < |tokens| ==> ts[start + k] == Token(tokens[k], k, y)
    ensures ts[start + k] == Token(tokens[k], k, y)
  {
  }

  /** The tokens of line j, in order, from position TokenOffset(lines, j),
      the k-th given the coordinates (k, j). */
  lemma LineTokensAt(lines: seq<string>, j: nat, ts: seq<Token>, start: nat, tokens: seq<string>)
    requires j < |lines| && ts == AllTokens(lines) && start == TokenOffset(lines, j)
    requires tokens == SplitNonEmpty(lines[j], ',')
    ensures TokenOffset(lines, j + 1) == start + |tokens| <= |ts|
    ensures forall k :: 0 <= k < |tokens| ==> ts[start + k] == Token(tokens[k], k, j)
  {
    ghost var front := AllTokens(lines[..j]);
    ghost var line := LineTokens(lines[j], j);
    AllTokensStep(lines, j);
    AllTokensPrefix(lines, j + 1);
    TokensAfterPrefix(ts, front, line, tokens, start, j);
  }

  /** LineTokensAt on plain sequences: `line` holds the tokens of line `y`
      and follows `front` at the start of `ts`. */
  lemma TokensAfterPrefix(ts: seq<Token>, front: seq<Token>, line: seq<Token>, tokens: seq<string>, start: nat, y: int)
    requires front + line <= ts && start == |front| && |line| == |tokens|
    requires forall k :: 0 <= k < |line| ==> line[k] == Token(tokens[k], k, y)
    ensures start + |tokens| <= |ts|
    ensures forall k :: 0 <= k < |tokens| ==> ts[start + k] == Token(tokens[k], k, y)
  {
    forall k | 0 <= k < |tokens|
      ensures ts[start + k] == Token(tokens[k], k, y)
    {
      assert ts[|front| + k] == (front + line)[|front| + k];
    }
  }

  /** Each line adds its own tokens to the offset, and the offset after
      the last line counts every token. */
  lemma TokenOffsetStep(lines: seq<string>, j: nat)
    requires j < |lines|
    ensures TokenOffset(lines, j + 1) == TokenOffset(lines, j) + |SplitNonEmpty(lines[j], ',')|
    ensures TokenOffset(lines, j + 1) <= TokenOffset(lines, |lines|) == |AllTokens(lines)|
  {
    AllTokensPrefix(lines, j + 1);
    assert lines[..j + 1][..j] == lines[..j];
    assert lines[..|lines|] == lines;
  }

  /** The placements of a token list: the first parse error, or one
      placement per non-zero token, in order. */
  function Placements(ts: seq<Token>): (r: Result<seq<Placement>, LevelError>)
    ensures r.Success? ==> |r.value| <= |ts|
    ensures r.Success? ==> forall p :: p in r.value ==> p.id != 0
  {
    PlacementsUpTo(ts, |ts|)
  }

  /** The placements of the first `n` tokens. */
  function PlacementsUpTo(ts: seq<Token>, n: nat): (r: Result<seq<Placement>, LevelError>)
    requires n <= |ts|
    ensures r.Success? ==> |r.value| <= n
    ensures r.Success? ==> forall p :: p in r.value ==> p.id != 0
  {
    if n == 0 then Success([])
    else
      var front :- PlacementsUpTo(ts, n - 1);
      var t := ts[n - 1];
      var id :- ParseInt32(t.text);
      if id == 0 then Success(front) else Success(front + [Placement(id, t.x, t.y)])
  }

  /** The placements of the first `n` tokens depend on those tokens only. */
  lemma {:induction false} PlacementsUpToAgree(a: seq<Token>, b: seq<Token>, n: nat)
    requires n <= |a| && n <= |b| && a[..n] == b[..n]
    ensures PlacementsUpTo(a, n) == PlacementsUpTo(b, n)
    decreases n
  {
    if n > 0 {
      assert a[..n - 1] == a[..n][..n - 1] == b[..n][..n - 1] == b[..n - 1];
      assert a[n - 1] == a[..n][n - 1] == b[..n][n - 1] == b[n - 1];
      PlacementsUpToAgree(a, b, n - 1);
    }
  }

  /** The placements of the first `n` tokens are the placements of that
      prefix. */
  lemma PlacementsOfPrefix(ts: seq<Token>, n: nat)
    requires n <= |ts|
    ensures PlacementsUpTo(ts, n) == Placements(ts[..n])
  {
    PlacementsUpToAgree(ts, ts[..n], n);
  }

  /** Placements for the first `n` tokens extend those for the first
      `n - 1` by the last token's, unless it is 0. */
  lemma PlacementsFront(ts: seq<Token>, n: nat, ps: seq<Placement>) returns (front: seq<Placement>, id: int)
    requires 0 < n <= |ts| && PlacementsUpTo(ts, n) == Success(ps)
    ensures PlacementsUpTo(ts, n - 1) == Success(front) && ParseInt32(ts[n - 1].text) == Success(id)
    ensures ps == if id == 0 then front else front + [Placement(id, ts[n - 1].x, ts[n - 1].y)]
  {
    front := PlacementsUpTo(ts, n - 1).value;
    id := ParseInt32(ts[n - 1].text).value;
  }

  /** One more token, `ts[i]`, that parses as `id` extends the placements
      by the MakeEntity call it asks for, if any. */
  lemma PlacementsStep(ts: seq<Token>, i: nat, front: seq<Placement>, id: int)
    requires i < |ts| && PlacementsUpTo(ts, i) == Success(front)
    requires ParseInt32(ts[i].text) == Success(id)
    ensures PlacementsUpTo(ts, i + 1) ==
              if id == 0 then Success(front) else Success(front + [Placement(id, ts[i].x, ts[i].y)])
  {
  }

  // ---------------------------------------------------------------------
  // Map header

  datatype LayerHeader = LayerHeader(width: string, height: string, encoding: string, data: string)
  datatype MapHeader = MapHeader(width: string, height: string, layers: seq<LayerHeader>)

  /** The checks the Level constructor makes before reading tiles, in its
      order: map size, array allocation, layer count, layer width, layer
      height (the || stops at a width mismatch), encoding. On success the
      size and the CSV text. */
  function ValidateHeader(h: MapHeader): (r: Result<(nat, nat, string), LevelError>)
    ensures r.Success? <==>
              && ParseInt32(h.width).Success? && ParseInt32(h.height).Success?
              && ParseInt32(h.width).value >= 0 && ParseInt32(h.height).value >= 0
              && |h.layers| == 1
              && ParseInt32(h.layers[0].width) == ParseInt32(h.width)
              && ParseInt32(h.layers[0].height) == ParseInt32(h.height)
              && h.layers[0].encoding == "csv"
    ensures r.Success? ==>
              r.value == (ParseInt32(h.width).value, ParseInt32(h.height).value, h.layers[0].data)
  {
    CheckHeader(ParseInt32(h.width), ParseInt32(h.height), h.layers, LayerSizes(h.layers))
  }

  /** Convert.ToInt32 of each layer's width and height. */
  function LayerSizes(layers: seq<LayerHeader>): seq<(Result<int, LevelError>, Result<int, LevelError>)> {
    seq(|layers|, i requires 0 <= i < |layers| => (ParseInt32(layers[i].width), ParseInt32(layers[i].height)))
  }

  /** ValidateHeader once the map's size and the layers' sizes are parsed. */
  function CheckHeader(width: Result<int, LevelError>, height: Result<int, LevelError>, layers: seq<LayerHeader>,
                       sizes: seq<(Result<int, LevelError>, Result<int, LevelError>)>)
    : (r: Result<(nat, nat, string), LevelError>)
    requires |sizes| == |layers|
    ensures r.Success? <==>
              && width.Success? && height.Success? && width.value >= 0 && height.value >= 0
              && |layers| == 1 && sizes[0] == (width, height) && layers[0].encoding == "csv"
    ensures r.Success? ==> r.value == (width.value, height.value, layers[0].data)
  {
    var w :- width;
    var hh :- height;
    if w < 0 || hh < 0 then Failure(OverflowException)
    else if |layers| != 1 then Failure(WrongLayerCount)
    else
      var data :- CheckLayer(sizes[0].0, sizes[0].1, layers[0], w, hh);
      Success((w, hh, data))
  }

  /** The checks on the single layer of a map of size w by hh, given the
      layer's parsed width `lw` and height `lh`: its width, then its height
      (the || stops at a width mismatch), then its encoding. On success its
      CSV text. */
  function CheckLayer(lw: Result<int, LevelError>, lh: Result<int, LevelError>, layer: LayerHeader, w: int, hh: int)
    : (r: Result<string, LevelError>)
    ensures r.Success? <==> lw == Success(w) && lh == Success(hh) && layer.encoding == "csv"
    ensures r.Success? ==> r.value == layer.data
  {
    var lwv :- lw;
    if lwv != w then Failure(LayerSizeMismatch)
    else
      var lhv :- lh;
      if lhv != hh then Failure(LayerSizeMismatch)
      else if layer.encoding != "csv" then Failure(NotCsvEncoding)
      else Success(layer.data)
  }

  // ---------------------------------------------------------------------
  // The id-to-constructor registry

  datatype EntityKind = WallKind | BeerKind | TaggingLocationKind | DoorKind | PlayerKind

  /** Kinds marked [StaticTileEntity]: they occupy a grid cell. */
  predicate IsStaticKind(k: EntityKind) {
    k in {WallKind, TaggingLocationKind, DoorKind}
  }

  /** The type of a constructor's first parameter. */
  datatype FirstParameter = TakesLevel | TakesGame

  /** A constructor carrying a TilesetConstructorAttribute, as the assembly
      scan sees it: the kind it builds, whether its class derives from
      Entity, its first parameter and its attribute. */
  datatype ConstructorDecl = ConstructorDecl(
    kind: EntityKind, isEntity: bool, firstParameter: FirstParameter,
    attribute: TilesetConstructorAttribute)

  /** The registry the static constructor builds from the declarations in
      scan order: the first non-Entity class or repeated id aborts. */
  function RegistryOf(decls: seq<ConstructorDecl>): (r: Result<map<int, ConstructorDecl>, LevelError>)
    ensures r.Success? ==> forall id :: id in r.value ==> id >= 1 && r.value[id].attribute.Id == id
  {
    if decls == [] then Success(map[])
    else
      var front :- RegistryOf(decls[..|decls| - 1]);
      var d := decls[|decls| - 1];
      if !d.isEntity then Failure(NotAnEntityType)
      else if d.attribute.Id in front then Failure(DuplicateTilesetId(d.attribute.Id))
      else Success(front[d.attribute.Id := d])
  }

  predicate DistinctIds(decls: seq<ConstructorDecl>) {
    forall i, j :: 0 <= i < j < |decls| ==> decls[i].attribute.Id != decls[j].attribute.Id
  }

  predicate AllEntities(decls: seq<ConstructorDecl>) {
    forall i :: 0 <= i < |decls| ==> decls[i].isEntity
  }

  function DeclaredIds(decls: seq<ConstructorDecl>): set<int> {
    set i | 0 <= i < |decls| :: decls[i].attribute.Id
  }

  lemma DeclaredIdsSnoc(decls: seq<ConstructorDecl>)
    requires decls != []
    ensures DeclaredIds(decls) == DeclaredIds(decls[..|decls| - 1]) + {decls[|decls| - 1].attribute.Id}
  {
    var front := decls[..|decls| - 1];
    forall x | x in DeclaredIds(decls) ensures x in DeclaredIds(front) + {decls[|decls| - 1].attribute.Id} {
      var i :| 0 <= i < |decls| && decls[i].attribute.Id == x;
      if i < |front| {
        assert front[i] == decls[i];
      }
    }
    forall x | x in DeclaredIds(front) ensures x in DeclaredIds(decls) {
      var i :| 0 <= i < |front| && front[i].attribute.Id == x;
      assert decls[i] == front[i];
    }
  }

  /** The registry is built exactly when every declaration is on an Entity
      class and no id repeats. */
  lemma {:induction false} RegistryOfSucceeds(decls: seq<ConstructorDecl>)
    ensures RegistryOf(decls).Success? <==> AllEntities(decls) && DistinctIds(decls)
  {
    if decls != [] {
      var n := |decls| - 1;
      var front := decls[..n];
      RegistryOfSucceeds(front);
      RegistryOfKeys(front);
      DeclaredIdsSnoc(decls);
      var d := decls[n];
      assert AllEntities(decls) <==> AllEntities(front) && d.isEntity by {
        assert forall i :: 0 <= i < n ==> front[i] == decls[i];
      }
      assert DistinctIds(decls) <==> DistinctIds(front) && d.attribute.Id !in DeclaredIds(front) by {
        assert forall i :: 0 <= i < n ==> front[i] == decls[i];
        if DistinctIds(front) && d.attribute.Id in DeclaredIds(front) {
          var i :| 0 <= i < n && front[i].attribute.Id == d.attribute.Id;
          assert decls[i].attribute.Id == decls[n].attribute.Id;
        }
      }
    }
  }

  /** A built registry has exactly the declared ids as keys. */
  lemma {:induction false} RegistryOfKeys(decls: seq<ConstructorDecl>)
    ensures RegistryOf(decls).Success? ==> RegistryOf(decls).value.Keys == DeclaredIds(decls)
  {
    if decls != [] {
      RegistryOfKeys(decls[..|decls| - 1]);
      DeclaredIdsSnoc(decls);
    }
  }

  /** A built registry maps each declared id to its declaration. */
  lemma {:induction false} RegistryOfValues(decls: seq<ConstructorDecl>)
    ensures RegistryOf(decls).Success? ==>
              && RegistryOf(decls).value.Keys == DeclaredIds(decls)
              && forall i :: 0 <= i < |decls| ==> RegistryOf(decls).value[decls[i].attribute.Id] == decls[i]
  {
    RegistryOfKeys(decls);
    if decls != [] && RegistryOf(decls).Success? {
      var n := |decls| - 1;
      var front := decls[..n];
      RegistryOfValues(front);
      RegistryOfKeys(front);
      var m := RegistryOf(front).value;
      forall i | 0 <= i < |decls| ensures RegistryOf(decls).value[decls[i].attribute.Id] == decls[i] {
        if i < n {
          assert front[i] == decls[i];
          assert decls[i].attribute.Id in m;
        }
      }
    }
  }

  /** The static constructor's loop. */
  method BuildEntityConstructors(decls: seq<ConstructorDecl>) returns (r: Result<map<int, ConstructorDecl>, LevelError>)
    ensures r == RegistryOf(decls)
  {
    var entityConstructors: map<int, ConstructorDecl> := map[];
    for i := 0 to |decls|
      invariant RegistryOf(decls[..i]) == Success(entityConstructors)
    {
      assert decls[..i + 1][..i] == decls[..i];
      var d := decls[i];
      if !d.isEntity {
        assert RegistryOf(decls[..i + 1]) == Failure(NotAnEntityType);
        RegistryFailureSticks(decls, i + 1);
        return Failure(NotAnEntityType);
      }
      if d.attribute.Id in entityConstructors {
        assert RegistryOf(decls[..i + 1]) == Failure(DuplicateTilesetId(d.attribute.Id));
        RegistryFailureSticks(decls, i + 1);
        return Failure(DuplicateTilesetId(d.attribute.Id));
      }
      entityConstructors := entityConstructors[d.attribute.Id := d];
    }
    assert decls[..|decls|] == decls;
    r := Success(entityConstructors);
  }

  /** Once a prefix fails, the whole list fails with the same error. */
  lemma {:induction false} RegistryFailureSticks(decls: seq<ConstructorDecl>, i: nat)
    requires i <= |decls| && RegistryOf(decls[..i]).Failure?
    ensures RegistryOf(decls) == RegistryOf(decls[..i])
    decreases |decls| - i
  {
    if i < |decls| {
      assert decls[..i + 1][..i] == decls[..i];
      RegistryFailureSticks(decls, i + 1);
    } else {
      assert decls[..i] == decls;
    }
  }

  /** The tile-set constructors the game declares: Wall 1, Beer 2,
      TaggingLocation 3, Door 4, Player 5; Door and Player take the game
      rather than the level as first parameter. */
  function SourceDeclarations(): seq<ConstructorDecl> {
    [ ConstructorDecl(WallKind, true, TakesLevel, Attribute(1)),
      ConstructorDecl(BeerKind, true, TakesLevel, Attribute(2)),
      ConstructorDecl(TaggingLocationKind, true, TakesLevel, Attribute(3)),
      ConstructorDecl(DoorKind, true, TakesGame, Attribute(4)),
      ConstructorDecl(PlayerKind, true, TakesGame, Attribute(5)) ]
  }

  /** The declarations with every constructor taking the level, the
      signature MakeEntity's Invoke(this, x, y) calls for. */
  function CorrectedDeclarations(): seq<ConstructorDecl> {
    [ ConstructorDecl(WallKind, true, TakesLevel, Attribute(1)),
      ConstructorDecl(BeerKind, true, TakesLevel, Attribute(2)),
      ConstructorDecl(TaggingLocationKind, true, TakesLevel, Attribute(3)),
      ConstructorDecl(DoorKind, true, TakesLevel, Attribute(4)),
      ConstructorDecl(PlayerKind, true, TakesLevel, Attribute(5)) ]
  }

  /** A list of five entity declarations with ids 1 to 5 in order gives a
      registry of exactly those ids; the tile id 0 that ProcessCsv skips is
      never registered. */
  lemma DeclaredRegistry(decls: seq<ConstructorDecl>)
    requires |decls| == 5 && AllEntities(decls)
    requires forall i :: 0 <= i < 5 ==> decls[i].attribute.Id == i + 1
    ensures RegistryOf(decls).Success? && RegistryOf(decls).value.Keys == {1, 2, 3, 4, 5}
    ensures forall id :: 1 <= id <= 5 ==> RegistryOf(decls).value[id] == decls[id - 1]
  {
    RegistryOfSucceeds(decls);
    RegistryOfValues(decls);
    assert DeclaredIds(decls) == {1, 2, 3, 4, 5} by {
      forall x | x in {1, 2, 3, 4, 5} ensures x in DeclaredIds(decls) {
        assert decls[x - 1].attribute.Id == x;
      }
    }
    forall id | 1 <= id <= 5 ensures RegistryOf(decls).value[id] == decls[id - 1] {
      assert decls[id - 1].attribute.Id == id;
    }
  }

  /** MakeEntity invokes every registered constructor with the arguments
      (level, x, y); only a constructor whose first parameter takes the
      level accepts them. */
  predicate AcceptsLevelArguments(d: ConstructorDecl) {
    d.firstParameter == TakesLevel
  }

  /** As declared, the door tile (4) and the player tile (5) name
      constructors that cannot take the level, so MakeEntity fails on every
      such tile. */
  lemma DoorAndPlayerTilesRejected()
    ensures RegistryOf(SourceDeclarations()).Success?
    ensures !AcceptsLevelArguments(RegistryOf(SourceDeclarations()).value[4])
    ensures !AcceptsLevelArguments(RegistryOf(SourceDeclarations()).value[5])
    ensures forall id :: 1 <= id <= 3 ==>
              id in RegistryOf(SourceDeclarations()).value &&
              AcceptsLevelArguments(RegistryOf(SourceDeclarations()).value[id])
  {
    var decls := SourceDeclarations();
    DeclaredRegistry(decls);
    var m := RegistryOf(decls).value;
    assert m[4] == decls[3] && m[5] == decls[4];
    forall id | 1 <= id <= 3 ensures id in m && AcceptsLevelArguments(m[id]) {
      assert m[id] == decls[id - 1];
    }
  }

  /** With every constructor taking the level, every registered tile id can
      be instantiated. */
  lemma CorrectedTilesAccepted()
    ensures RegistryOf(CorrectedDeclarations()).Success?
    ensures forall id :: id in RegistryOf(CorrectedDeclarations()).value ==>
              AcceptsLevelArguments(RegistryOf(CorrectedDeclarations()).value[id])
    ensures RegistryOf(CorrectedDeclarations()).value[4].kind == DoorKind
    ensures RegistryOf(CorrectedDeclarations()).value[5].kind == PlayerKind
  {
    var decls := CorrectedDeclarations();
    DeclaredRegistry(decls);
    var m := RegistryOf(decls).value;
    forall id | id in m ensures AcceptsLevelArguments(m[id]) {
      assert id in {1, 2, 3, 4, 5};
      assert m[id] == decls[id - 1];
    }
  }

  // ---------------------------------------------------------------------
  // Ground decals

  /** The integer part of a ground decal: its texture and its tile. */
  datatype GroundDecal = GroundDecal(DecalNumber: int, TileX: int, TileY: int)

  /** IsDecalSpotFree. */
  predicate SpotFree(decals: seq<GroundDecal>, x: int, y: int) {
    forall i :: 0 <= i < |decals| ==> !(decals[i].TileX == x && decals[i].TileY == y)
  }

  predicate DistinctSpots(decals: seq<GroundDecal>) {
    forall i, j :: 0 <= i < j < |decals| ==> (decals[i].TileX, decals[i].TileY) != (decals[j].TileX, decals[j].TileY)
  }

  /** A decal on a free spot keeps the spots distinct. */
  lemma DistinctSpotsSnoc(decals: seq<GroundDecal>, decal: GroundDecal)
    requires DistinctSpots(decals) && SpotFree(decals, decal.TileX, decal.TileY)
    ensures DistinctSpots(decals + [decal])
  {
    var next := decals + [decal];
    forall a, b | 0 <= a < b < |next|
      ensures (next[a].TileX, next[a].TileY) != (next[b].TileX, next[b].TileY)
    {
      if b == |decals| {
        assert !(decals[a].TileX == decal.TileX && decals[a].TileY == decal.TileY);
      }
    }
  }

  /** What the decal part leaves behind when it starts from no decals: at
      most five decals, on distinct spots of the [0, maxX) x [0, maxY)
      grid (the origin when a side is empty), with textures in [0, 9). */
  ghost predicate DecalsPlaced(decals: seq<GroundDecal>, maxX: nat, maxY: nat) {
    && |decals| <= 5 && DistinctSpots(decals)
    && (forall k :: 0 <= k < |decals| ==>
          && 0 <= decals[k].TileX < (if maxX == 0 then 1 else maxX)
          && 0 <= decals[k].TileY < (if maxY == 0 then 1 else maxY)
          && 0 <= decals[k].DecalNumber < concreteDecalCount)
  }

  const minNumGroundDecals: int := 2
  const concreteDecalCount: int := 9   // concreteTextureCount - 1 textures

  /** Random.Next(lo, hi) from one raw draw: lo when the range is empty,
      otherwise a value in [lo, hi); every such value has a draw. */
  function Next(raw: nat, lo: int, hi: int): (r: int)
    requires lo <= hi
    ensures lo == hi ==> r == lo
    ensures lo < hi ==> lo <= r < hi
  {
    if lo == hi then lo else lo + raw % (hi - lo)
  }

  /** (int)((tiles - 2 * groundShrinkage) / groundTextureSize) for a
      non-negative tile count: the cast truncates toward zero, so an empty
      map gives 0 rather than -1. */
  function MaxDecalTiles(tiles: nat): (r: nat)
    ensures r * 7 <= tiles
    ensures tiles >= 1 ==> tiles - 1 < (r + 1) * 7
  {
    if tiles == 0 then 0 else (tiles - 1) / 7
  }

  /** The number of decals wanted: a draw in [2, maxNumDecals) when that
      range is not empty, else 2. */
  function NumDecals(maxNumDecals: int, raw: nat): (r: int)
    ensures maxNumDecals > minNumGroundDecals ==> minNumGroundDecals <= r < maxNumDecals
    ensures maxNumDecals <= minNumGroundDecals ==> r == minNumGroundDecals
  {
    if minNumGroundDecals < maxNumDecals then Next(raw, minNumGroundDecals, maxNumDecals)
    else minNumGroundDecals
  }

  /** The decal loop from state (decals, i, attempts) reading draws from
      position `pos` of the stream: returns the decals and the next
      position. Each iteration draws x and y, and a texture only when the
      spot is free. */
  function DecalLoop(decals: seq<GroundDecal>, i: int, attempts: nat, numDecals: int,
                     maxX: nat, maxY: nat, draws: nat -> nat, pos: nat): (r: (seq<GroundDecal>, nat))
    ensures pos <= r.1
    ensures attempts <= 5 ==> r.1 <= pos + 3 * (5 - attempts)
    ensures !(i < numDecals && attempts < 5) ==> r == (decals, pos)
    decreases 5 - attempts
  {
    if !(i < numDecals && attempts < 5) then (decals, pos)
    else
      var x := Next(draws(pos), 0, maxX);
      var y := Next(draws(pos + 1), 0, maxY);
      if !SpotFree(decals, x, y) then
        DecalLoop(decals, i, attempts + 1, numDecals, maxX, maxY, draws, pos + 2)
      else
        var decal := GroundDecal(Next(draws(pos + 2), 0, concreteDecalCount), x, y);
        DecalLoop(decals + [decal], i + 1, attempts + 1, numDecals, maxX, maxY, draws, pos + 3)
  }

  /** The loop adds at most 5 - attempts decals and at most numDecals - i,
      keeps the spots distinct, keeps every new decal on the ground's
      [0, maxX) x [0, maxY) grid (the origin when a side is empty) with a
      texture in [0, 9), and keeps the earlier decals. */
  lemma {:induction false} DecalLoopSpec(decals: seq<GroundDecal>, i: int, attempts: nat, numDecals: int,
                                        maxX: nat, maxY: nat, draws: nat -> nat, pos: nat)
    requires attempts <= 5
    requires DistinctSpots(decals)
    ensures var r := DecalLoop(decals, i, attempts, numDecals, maxX, maxY, draws, pos).0;
            && |decals| <= |r| <= |decals| + 5 - attempts
            && (i <= numDecals ==> |r| <= |decals| + numDecals - i)
            && r[..|decals|] == decals
            && DistinctSpots(r)
            && (forall k :: |decals| <= k < |r| ==>
                  && 0 <= r[k].TileX < (if maxX == 0 then 1 else maxX)
                  && 0 <= r[k].TileY < (if maxY == 0 then 1 else maxY)
                  && 0 <= r[k].DecalNumber < concreteDecalCount)
    decreases 5 - attempts
  {
    if i < numDecals && attempts < 5 {
      var x := Next(draws(pos), 0, maxX);
      var y := Next(draws(pos + 1), 0, maxY);
      if !SpotFree(decals, x, y) {
        DecalLoopSpec(decals, i, attempts + 1, numDecals, maxX, maxY, draws, pos + 2);
      } else {
        var decal := GroundDecal(Next(draws(pos + 2), 0, concreteDecalCount), x, y);
        var next := decals + [decal];
        DistinctSpotsSnoc(decals, decal);
        DecalLoopSpec(next, i + 1, attempts + 1, numDecals, maxX, maxY, draws, pos + 3);
        var r := DecalLoop(next, i + 1, attempts + 1, numDecals, maxX, maxY, draws, pos + 3).0;
        assert r[..|decals|] == r[..|next|][..|decals|];
      }
    }
  }
}
