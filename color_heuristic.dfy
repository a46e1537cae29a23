/** The colour-darkness heuristic of the content script: a computed
    background colour string is split into its maximal runs of decimal
    digits (the regular expression /\d+/g), the first three runs are read as
    the red, green and blue channels, and the colour is dark when its
    ITU-R BT.601 luma 0.299 R + 0.587 G + 0.114 B is below 128.  The luma is
    compared exactly, scaled by 1000; the script sums in floating point,
    which falls just below 128 on some colours whose exact luma is 128. */
module ColorHeuristic {
  import opened Wrappers

  /** The one spelling of transparent black that is short-circuited. */
  const TransparentBlack: string := "rgba(0, 0, 0, 0)"
  const Transparent: string := "transparent"

  predicate IsDigit(c: char) { '0' <= c <= '9' }

  predicate AllDigits(s: string) { forall i :: 0 <= i < |s| ==> IsDigit(s[i]) }

  predicate NoDigits(s: string) { forall i :: 0 <= i < |s| ==> !IsDigit(s[i]) }

  /** Length of the longest prefix of `s` made of digits. */
  function LeadingDigits(s: string): (n: nat)
    ensures n <= |s|
    ensures AllDigits(s[..n])
    ensures n < |s| ==> !IsDigit(s[n])
  {
    if s == [] || !IsDigit(s[0]) then 0
    else
      var m := LeadingDigits(s[1..]);
      assert s[..1 + m] == [s[0]] + s[1..][..m];
      1 + m
  }

  /** The maximal digit runs of `s`, left to right, as `s.match(/\d+/g)`
      yields them (an absent match is the empty sequence here). */
  function DigitRuns(s: string): (runs: seq<string>)
    ensures forall k :: 0 <= k < |runs| ==> runs[k] != [] && AllDigits(runs[k])
    decreases |s|
  {
    if s == [] then []
    else if !IsDigit(s[0]) then DigitRuns(s[1..])
    else
      var n := LeadingDigits(s);
      [s[..n]] + DigitRuns(s[n..])
  }

  function DigitValue(c: char): nat
    requires IsDigit(c)
  {
    (c as int) - ('0' as int)
  }

  /** The number a run of digits denotes (JavaScript's unary `+`). */
  function DecimalValue(s: string): nat
    requires AllDigits(s)
  {
    if s == [] then 0
    else DecimalValue(s[..|s| - 1]) * 10 + DigitValue(s[|s| - 1])
  }

  function DigitChar(d: nat): (c: char)
    requires d < 10
    ensures IsDigit(c) && DigitValue(c) == d
  {
    ('0' as int + d) as char
  }

  /** The shortest decimal spelling of `n`, as a browser writes a colour channel. */
  function Decimal(n: nat): (s: string)
    ensures s != [] && AllDigits(s)
  {
    if n < 10 then [DigitChar(n)]
    else Decimal(n / 10) + [DigitChar(n % 10)]
  }

  /** The luma of (r, g, b) times 1000, with the BT.601 weights. */
  function Luma1000(r: nat, g: nat, b: nat): nat
  {
    299 * r + 587 * g + 114 * b
  }

  /** The first three digit runs of `color` as numbers, if there are three. */
  function Channels(color: string): Option<(nat, nat, nat)>
  {
    var rgb := DigitRuns(color);
    if |rgb| < 3 then None
    else Some((DecimalValue(rgb[0]), DecimalValue(rgb[1]), DecimalValue(rgb[2])))
  }

  /** `isColorDark` of the content script. */
  function IsColorDark(color: string): bool
  {
    if color == [] || color == TransparentBlack || color == Transparent then false
    else
      match Channels(color)
      case None => false
      case Some((r, g, b)) => Luma1000(r, g, b) < 128000
  }

  /** `isDarkModeAlreadyEnabled` of the content script, given the computed
      background colours of the body (None when the document has no body
      yet) and of the root element. */
  function IsDarkModeAlreadyEnabled(bodyBackground: Option<string>, htmlBackground: string): bool
  {
    match bodyBackground
    case None => false
    case Some(body) => IsColorDark(body) || IsColorDark(htmlBackground)
  }

  // ---------------------------------------------------------------------
  // Colour strings as a browser writes them.

  /** A string whose digit runs are `runs`, separated by the non-digit
      strings `seps` (one before the first run, one after each run). */
  function Interleave(seps: seq<string>, runs: seq<string>): string
    requires |seps| == |runs| + 1
  {
    if runs == [] then seps[0]
    else seps[0] + runs[0] + Interleave(seps[1..], runs[1..])
  }

  /** `rgb(r, g, b)`, the computed form of a colour without alpha. */
  function Rgb(r: nat, g: nat, b: nat): string
  {
    "rgb(" + Decimal(r) + ", " + Decimal(g) + ", " + Decimal(b) + ")"
  }

  /** `rgba(r, g, b, alpha)`, the computed form of a translucent colour. */
  function Rgba(r: nat, g: nat, b: nat, alpha: string): string
  {
    "rgba(" + Decimal(r) + ", " + Decimal(g) + ", " + Decimal(b) + ", " + alpha + ")"
  }

  /** `rgba(r,g,b,alpha)` written without spaces, as a page author may write it. */
  function RgbaUnspaced(r: nat, g: nat, b: nat, alpha: string): string
  {
    "rgba(" + Decimal(r) + "," + Decimal(g) + "," + Decimal(b) + "," + alpha + ")"
  }

  // ---------------------------------------------------------------------
  // Lemmas

  /** The literal spellings of transparency and the empty string are never dark. */
  lemma TransparentIsNotDark()
    ensures !IsColorDark("") && !IsColorDark(TransparentBlack) && !IsColorDark(Transparent)
  {
  }

  /** Fewer than three digit runs: never dark. */
  lemma {:induction false} FewRunsAreNotDark(color: string)
    requires |DigitRuns(color)| < 3
    ensures !IsColorDark(color)
  {
  }

  /** Only the first three digit runs matter: alpha and further numbers are ignored. */
  lemma {:induction false} OnlyFirstThreeRunsMatter(c1: string, c2: string)
    requires c1 !in {"", TransparentBlack, Transparent} && c2 !in {"", TransparentBlack, Transparent}
    requires |DigitRuns(c1)| >= 3 && |DigitRuns(c2)| >= 3
    requires DigitRuns(c1)[..3] == DigitRuns(c2)[..3]
    ensures IsColorDark(c1) == IsColorDark(c2)
  {
    assert DigitRuns(c1)[0] == DigitRuns(c1)[..3][0] && DigitRuns(c2)[0] == DigitRuns(c2)[..3][0];
    assert DigitRuns(c1)[1] == DigitRuns(c1)[..3][1] && DigitRuns(c2)[1] == DigitRuns(c2)[..3][1];
    assert DigitRuns(c1)[2] == DigitRuns(c1)[..3][2] && DigitRuns(c2)[2] == DigitRuns(c2)[..3][2];
  }

  /** Reading back a written channel gives the channel. */
  lemma {:induction false} DecimalRoundTrip(n: nat)
    ensures DecimalValue(Decimal(n)) == n
  {
    var s := Decimal(n);
    if n < 10 {
      assert s[..|s| - 1] == [];
    } else {
      assert s[..|s| - 1] == Decimal(n / 10);
      DecimalRoundTrip(n / 10);
    }
  }

  /** A prefix without digits contributes no run. */
  lemma {:induction false} NoDigitPrefix(sep: string, t: string)
    requires NoDigits(sep)
    ensures DigitRuns(sep + t) == DigitRuns(t)
  {
    if sep == [] {
      assert sep + t == t;
    } else {
      assert (sep + t)[0] == sep[0];
      assert (sep + t)[1..] == sep[1..] + t;
      NoDigitPrefix(sep[1..], t);
    }
  }

  lemma {:induction false} LeadingDigitsOfRun(d: string, t: string)
    requires AllDigits(d)
    requires t == [] || !IsDigit(t[0])
    ensures LeadingDigits(d + t) == |d|
  {
    if d != [] {
      assert (d + t)[1..] == d[1..] + t;
      LeadingDigitsOfRun(d[1..], t);
    }
  }

  /** A run of digits followed by a non-digit (or the end) is one whole run. */
  lemma {:induction false} DigitRunPrefix(d: string, t: string)
    requires d != [] && AllDigits(d)
    requires t == [] || !IsDigit(t[0])
    ensures DigitRuns(d + t) == [d] + DigitRuns(t)
  {
    LeadingDigitsOfRun(d, t);
    assert (d + t)[..|d|] == d;
    assert (d + t)[|d|..] == t;
  }

  /** A separator, then a run, then a non-digit (or the end). */
  lemma {:induction false} SeparatedRun(sep: string, d: string, t: string)
    requires NoDigits(sep)
    requires d != [] && AllDigits(d)
    requires t == [] || !IsDigit(t[0])
    ensures DigitRuns(sep + d + t) == [d] + DigitRuns(t)
  {
    assert sep + d + t == sep + (d + t);
    NoDigitPrefix(sep, d + t);
    DigitRunPrefix(d, t);
  }

  lemma {:induction false} InterleaveStartsWithSeparator(seps: seq<string>, runs: seq<string>, tail: string)
    requires |seps| == |runs| + 1
    requires seps[0] != []
    ensures (Interleave(seps, runs) + tail)[0] == seps[0][0]
  {
    var x := Interleave(seps, runs);
    if runs != [] {
      var rest := runs[0] + Interleave(seps[1..], runs[1..]);
      assert x == seps[0] + rest;
      assert x[0] == seps[0][0];
    }
    assert (x + tail)[0] == x[0];
  }

  /** An interleaving followed by a tail starts with a non-digit, or is empty. */
  lemma {:induction false} InterleaveThenTail(seps: seq<string>, runs: seq<string>, tail: string)
    requires |seps| == |runs| + 1 && NoDigits(seps[0])
    requires runs != [] ==> seps[0] != []
    requires runs == [] ==> seps[0] != [] || tail == [] || !IsDigit(tail[0])
    ensures var x := Interleave(seps, runs) + tail; x == [] || !IsDigit(x[0])
  {
    if seps[0] != [] {
      InterleaveStartsWithSeparator(seps, runs, tail);
    } else {
      assert Interleave(seps, runs) + tail == tail;
    }
  }

  /** The conditions of `DigitRunsOfInterleave`, on separators `seps`
      between digit runs `runs`, followed by `tail`. */
  predicate InterleaveShape(seps: seq<string>, runs: seq<string>, tail: string)
  {
    |seps| == |runs| + 1 &&
    (forall k :: 0 <= k < |seps| ==> NoDigits(seps[k])) &&
    (forall k :: 1 <= k < |runs| ==> seps[k] != []) &&
    (forall k :: 0 <= k < |runs| ==> runs[k] != [] && AllDigits(runs[k])) &&
    (|runs| > 0 ==> seps[|runs|] != [] || tail == [] || !IsDigit(tail[0]))
  }

  /** Dropping the first separator and run keeps the shape. */
  lemma {:induction false} InterleaveShapeTail(seps: seq<string>, runs: seq<string>, tail: string)
    requires InterleaveShape(seps, runs, tail) && runs != []
    ensures InterleaveShape(seps[1..], runs[1..], tail)
    ensures NoDigits(seps[0]) && runs[0] != [] && AllDigits(runs[0])
    ensures var x := Interleave(seps[1..], runs[1..]) + tail; x == [] || !IsDigit(x[0])
  {
    var seps', runs' := seps[1..], runs[1..];
    assert seps'[0] == seps[1] && seps'[|runs'|] == seps[|runs|];
    assert forall k :: 0 <= k < |seps'| ==> seps'[k] == seps[k + 1];
    assert forall k :: 0 <= k < |runs'| ==> runs'[k] == runs[k + 1];
    InterleaveThenTail(seps', runs', tail);
  }

  /** The digit runs of an interleaving of separators without digits and
      non-empty digit strings are exactly those digit strings, provided the
      separators between two runs are non-empty: the parser recovers every
      decomposition a string can have, including one ending in a digit. */
  lemma {:induction false} DigitRunsOfInterleave(seps: seq<string>, runs: seq<string>, tail: string)
    requires InterleaveShape(seps, runs, tail)
    ensures DigitRuns(Interleave(seps, runs) + tail) == runs + DigitRuns(tail)
  {
    if runs == [] {
      NoDigitPrefix(seps[0], tail);
    } else {
      var seps', runs' := seps[1..], runs[1..];
      var rest := Interleave(seps', runs') + tail;
      InterleaveShapeTail(seps, runs, tail);
      assert Interleave(seps, runs) + tail == seps[0] + runs[0] + rest;
      SeparatedRun(seps[0], runs[0], rest);
      DigitRunsOfInterleave(seps', runs', tail);
      assert runs == [runs[0]] + runs';
    }
  }

  lemma {:induction false} ChannelsAssociate(sep: string, dr: string, dg: string, db: string, t: string)
    ensures dr + sep + dg + sep + db + t == dr + (sep + dg + (sep + db + t))
  {
  }

  /** Three runs separated by a non-empty separator without digits, and
      followed by a non-digit, are three runs. */
  lemma {:induction false} DigitRunsOfChannels(sep: string, dr: string, dg: string, db: string, t: string)
    requires sep != [] && NoDigits(sep)
    requires dr != [] && AllDigits(dr) && dg != [] && AllDigits(dg) && db != [] && AllDigits(db)
    requires t == [] || !IsDigit(t[0])
    ensures DigitRuns(dr + sep + dg + sep + db + t) == [dr, dg, db] + DigitRuns(t)
  {
    var s2 := sep + dg + (sep + db + t);
    TwoSeparatedRuns(sep, dg, db, t);
    assert s2[0] == sep[0];
    DigitRunPrefix(dr, s2);
    ChannelsAssociate(sep, dr, dg, db, t);
  }

  lemma {:induction false} TwoSeparatedRuns(sep: string, dg: string, db: string, t: string)
    requires sep != [] && NoDigits(sep)
    requires dg != [] && AllDigits(dg) && db != [] && AllDigits(db)
    requires t == [] || !IsDigit(t[0])
    ensures DigitRuns(sep + dg + (sep + db + t)) == [dg, db] + DigitRuns(t)
  {
    var s3 := sep + db + t;
    SeparatedRun(sep, db, t);
    assert s3[0] == sep[0];
    SeparatedRun(sep, dg, s3);
  }

  lemma {:induction false} PrefixAssociate(prefix: string, dr: string, dg: string, db: string, sep: string, t: string)
    ensures prefix + dr + sep + dg + sep + db + t == prefix + (dr + sep + dg + sep + db + t)
  {
  }

  lemma {:induction false} DigitRunsOfRgb(r: nat, g: nat, b: nat)
    ensures DigitRuns(Rgb(r, g, b)) == [Decimal(r), Decimal(g), Decimal(b)]
  {
    var dr, dg, db := Decimal(r), Decimal(g), Decimal(b);
    NoDigitPrefix(")", []);
    assert ")" + [] == ")";
    DigitRunsOfChannels(", ", dr, dg, db, ")");
    PrefixAssociate("rgb(", dr, dg, db, ", ", ")");
    NoDigitPrefix("rgb(", dr + ", " + dg + ", " + db + ")");
  }

  lemma {:induction false} DigitRunsOfRgba(r: nat, g: nat, b: nat, alpha: string)
    ensures |DigitRuns(Rgba(r, g, b, alpha))| >= 3
    ensures DigitRuns(Rgba(r, g, b, alpha))[..3] == [Decimal(r), Decimal(g), Decimal(b)]
  {
    var dr, dg, db := Decimal(r), Decimal(g), Decimal(b);
    var t := ", " + alpha + ")";
    assert t[0] == ',';
    DigitRunsOfChannels(", ", dr, dg, db, t);
    assert Rgba(r, g, b, alpha) == "rgba(" + dr + ", " + dg + ", " + db + t;
    PrefixAssociate("rgba(", dr, dg, db, ", ", t);
    NoDigitPrefix("rgba(", dr + ", " + dg + ", " + db + t);
  }

  /** On a computed colour without alpha the heuristic is exactly the luma test:
      dark iff the exact luma 0.299 R + 0.587 G + 0.114 B is below 128. */
  lemma {:induction false} IsColorDarkOnRgb(r: nat, g: nat, b: nat)
    ensures IsColorDark(Rgb(r, g, b)) <==> Luma1000(r, g, b) < 128000
  {
    var s := Rgb(r, g, b);
    assert s[0] == 'r' && s[3] == '(';
    assert TransparentBlack[3] == 'a' && Transparent[0] == 't';
    DigitRunsOfRgb(r, g, b);
    DecimalRoundTrip(r);
    DecimalRoundTrip(g);
    DecimalRoundTrip(b);
  }

  /** The channels read back from `rgb(r, g, b)` are (r, g, b). */
  lemma {:induction false} ChannelsOfRgb(r: nat, g: nat, b: nat)
    ensures Channels(Rgb(r, g, b)) == Some((r, g, b))
  {
    DigitRunsOfRgb(r, g, b);
    DecimalRoundTrip(r);
    DecimalRoundTrip(g);
    DecimalRoundTrip(b);
  }

  /** On a translucent computed colour the alpha is ignored: the verdict is
      the luma test, except for the one short-circuited spelling. */
  lemma {:induction false} IsColorDarkOnRgba(r: nat, g: nat, b: nat, alpha: string)
    ensures IsColorDark(Rgba(r, g, b, alpha)) <==>
              Rgba(r, g, b, alpha) != TransparentBlack && Luma1000(r, g, b) < 128000
  {
    var s := Rgba(r, g, b, alpha);
    assert s[0] == 'r' && Transparent[0] == 't';
    DigitRunsOfRgba(r, g, b, alpha);
    var runs := DigitRuns(s);
    assert runs[0] == runs[..3][0] && runs[1] == runs[..3][1] && runs[2] == runs[..3][2];
    DecimalRoundTrip(r);
    DecimalRoundTrip(g);
    DecimalRoundTrip(b);
  }

  lemma {:induction false} UnspacedRuns(dr: string, dg: string, db: string, alpha: string)
    requires dr != [] && AllDigits(dr) && dg != [] && AllDigits(dg) && db != [] && AllDigits(db)
    ensures |DigitRuns("rgba(" + dr + "," + dg + "," + db + ("," + alpha + ")"))| >= 3
    ensures DigitRuns("rgba(" + dr + "," + dg + "," + db + ("," + alpha + ")"))[..3] == [dr, dg, db]
  {
    var t := "," + alpha + ")";
    assert t[0] == ',';
    DigitRunsOfChannels(",", dr, dg, db, t);
    PrefixAssociate("rgba(", dr, dg, db, ",", t);
    NoDigitPrefix("rgba(", dr + "," + dg + "," + db + t);
  }

  lemma {:induction false} UnspacedNotShortCircuited(dr: string, dg: string, db: string, alpha: string)
    requires dr != [] && AllDigits(dr) && dg != [] && AllDigits(dg) && db != [] && AllDigits(db)
    ensures "rgba(" + dr + "," + dg + "," + db + ("," + alpha + ")") != TransparentBlack
  {
    var s := "rgba(" + dr + "," + dg + "," + db + ("," + alpha + ")");
    if |dr| == 1 {
      assert s[7] == dg[0];
    } else {
      assert s[6] == dr[1];
    }
    assert TransparentBlack[6] == ',' && TransparentBlack[7] == ' ';
  }

  lemma {:induction false} IsColorDarkOnUnspacedRgba(r: nat, g: nat, b: nat, alpha: string)
    ensures IsColorDark(RgbaUnspaced(r, g, b, alpha)) <==> Luma1000(r, g, b) < 128000
  {
    var dr, dg, db := Decimal(r), Decimal(g), Decimal(b);
    var s := RgbaUnspaced(r, g, b, alpha);
    assert s == "rgba(" + dr + "," + dg + "," + db + ("," + alpha + ")");
    UnspacedRuns(dr, dg, db, alpha);
    UnspacedNotShortCircuited(dr, dg, db, alpha);
    var runs := DigitRuns(s);
    assert runs[0] == runs[..3][0] && runs[1] == runs[..3][1] && runs[2] == runs[..3][2];
    assert s[0] != Transparent[0];
    DecimalRoundTrip(r);
    DecimalRoundTrip(g);
    DecimalRoundTrip(b);
  }

  /** The short-circuit covers `rgba(0, 0, 0, 0)` only: the same colour
      written without spaces is parsed as black and reported dark. */
  lemma UnspacedTransparentBlackIsDark()
    ensures RgbaUnspaced(0, 0, 0, "0") == "rgba(0,0,0,0)"
    ensures IsColorDark(RgbaUnspaced(0, 0, 0, "0"))
  {
    IsColorDarkOnUnspacedRgba(0, 0, 0, "0");
  }

  /** Under the exact luma, a grey `rgb(v, v, v)` is dark iff v < 128:
      black is dark, white and mid grey are light. */
  lemma {:induction false} GreyThreshold(v: nat)
    ensures IsColorDark(Rgb(v, v, v)) <==> v < 128
  {
    IsColorDarkOnRgb(v, v, v);
  }

  /** Either surface being dark makes the page dark; a missing body never does. */
  lemma PageDarkness(bodyBackground: Option<string>, htmlBackground: string)
    ensures bodyBackground == None ==> !IsDarkModeAlreadyEnabled(bodyBackground, htmlBackground)
    ensures bodyBackground.Some? ==>
              (IsDarkModeAlreadyEnabled(bodyBackground, htmlBackground) <==>
                 IsColorDark(bodyBackground.value) || IsColorDark(htmlBackground))
  {
  }

  /** With computed colours of the form `rgb(...)`, the page is dark iff the
      body's or the root's luma is below 128. */
  lemma {:induction false} PageDarknessOnRgb(body: (nat, nat, nat), html: (nat, nat, nat))
    ensures IsDarkModeAlreadyEnabled(Some(Rgb(body.0, body.1, body.2)), Rgb(html.0, html.1, html.2)) <==>
              Luma1000(body.0, body.1, body.2) < 128000 || Luma1000(html.0, html.1, html.2) < 128000
  {
    IsColorDarkOnRgb(body.0, body.1, body.2);
    IsColorDarkOnRgb(html.0, html.1, html.2);
  }
}
