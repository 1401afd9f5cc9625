/** WMTS tile addressing (MapUtil.buildTileUrl) and bounding-box parsing
    (MapUtil.parseStringExtent). buildTileUrl forms the GetTile request of
    the OGC WMTS 1.0.0 Implementation Standard (OGC 07-057r7), in its
    URL-template (RESTful) encoding or its KVP encoding. */
module TileAddressing {
  import opened JsValues

  // ---------------------------------------------------------------------
  // String operations the source relies on
  // ---------------------------------------------------------------------

  /** pat occurs in s starting at position i. */
  predicate OccursAt(s: string, pat: string, i: int)
  {
    0 <= i && i + |pat| <= |s| && s[i..i + |pat|] == pat
  }

  /** The first occurrence of pat in s at or after `from`, or -1. */
  function IndexFrom(s: string, pat: string, from: nat): (i: int)
    ensures i == -1 || (from <= i && OccursAt(s, pat, i))
    ensures forall j :: from <= j && (i == -1 || j < i) ==> !OccursAt(s, pat, j)
    decreases |s| - from
  {
    if from + |pat| > |s| then -1
    else if s[from..from + |pat|] == pat then from
    else IndexFrom(s, pat, from + 1)
  }

  /** `s.indexOf(pat)`. */
  function IndexOf(s: string, pat: string): int
  {
    IndexFrom(s, pat, 0)
  }

  /** `s.replace(pat, rep)` with a string pattern: only the first occurrence
      is replaced, and nothing when there is none. */
  function ReplaceFirst(s: string, pat: string, rep: string): (r: string)
    ensures IndexOf(s, pat) == -1 ==> r == s
    ensures IndexOf(s, pat) >= 0 ==>
              var i := IndexOf(s, pat);
              |r| == |s| - |pat| + |rep| && r[..i] == s[..i] &&
              r[i..i + |rep|] == rep && r[i + |rep|..] == s[i + |pat|..]
  {
    var i := IndexOf(s, pat);
    if i == -1 then s else ReplaceAt(s, i, |pat|, rep)
  }

  /** The n characters at position i replaced by rep. */
  function ReplaceAt(s: string, i: nat, n: nat, rep: string): (r: string)
    requires i + n <= |s|
    ensures |r| == |s| - n + |rep| && r[..i] == s[..i]
    ensures r[i..i + |rep|] == rep && r[i + |rep|..] == s[i + n..]
  {
    s[..i] + rep + s[i + n..]
  }

  lemma ReplaceAtBehind(t: string, r: string, i: nat, n: nat, rep: string)
    requires i + n <= |r|
    ensures ReplaceAt(t + r, |t| + i, n, rep) == t + ReplaceAt(r, i, n, rep)
  {
    var s := t + r;
    assert s[..|t| + i] == t + r[..i];
    assert s[|t| + i + n..] == r[i + n..];
  }

  /** Occurrences in the second half of t + r are the occurrences in r. */
  lemma OccursShift(t: string, r: string, pat: string, j: nat)
    ensures OccursAt(t + r, pat, |t| + j) <==> OccursAt(r, pat, j)
  {
    if j + |pat| <= |r| {
      assert (t + r)[|t| + j..|t| + j + |pat|] == r[j..j + |pat|];
    }
  }

  /** When pat does not start inside t, the search in t + r finds what the
      search in r finds, moved past t. */
  lemma IndexOfSkip(t: string, r: string, pat: string)
    requires forall j :: 0 <= j < |t| ==> !OccursAt(t + r, pat, j)
    ensures IndexOf(t + r, pat) == (if IndexOf(r, pat) == -1 then -1 else |t| + IndexOf(r, pat))
  {
    var s := t + r;
    var i := IndexOf(r, pat);
    if i >= 0 {
      OccursShift(t, r, pat, i);
      forall j | |t| <= j < |t| + i
        ensures !OccursAt(s, pat, j)
      {
        OccursShift(t, r, pat, j - |t|);
      }
    } else {
      forall j | |t| <= j
        ensures !OccursAt(s, pat, j)
      {
        OccursShift(t, r, pat, j - |t|);
      }
    }
  }

  /** A search in t + r that lands where the search in r lands, moved past
      t, makes the replacement in t + r the replacement in r behind t. */
  lemma ReplaceFirstShifted(t: string, r: string, pat: string, rep: string)
    requires IndexOf(t + r, pat) == (if IndexOf(r, pat) == -1 then -1 else |t| + IndexOf(r, pat))
    ensures ReplaceFirst(t + r, pat, rep) == t + ReplaceFirst(r, pat, rep)
  {
    var i := IndexOf(r, pat);
    if i >= 0 {
      assert ReplaceFirst(t + r, pat, rep) == ReplaceAt(t + r, |t| + i, |pat|, rep);
      assert ReplaceFirst(r, pat, rep) == ReplaceAt(r, i, |pat|, rep);
      ReplaceAtBehind(t, r, i, |pat|, rep);
    }
  }

  /** When pat does not start inside t, replacing in t + r replaces in r. */
  lemma ReplaceFirstSkip(t: string, r: string, pat: string, rep: string)
    requires forall j :: 0 <= j < |t| ==> !OccursAt(t + r, pat, j)
    ensures IndexOf(t + r, pat) == (if IndexOf(r, pat) == -1 then -1 else |t| + IndexOf(r, pat))
    ensures ReplaceFirst(t + r, pat, rep) == t + ReplaceFirst(r, pat, rep)
  {
    IndexOfSkip(t, r, pat);
    ReplaceFirstShifted(t, r, pat, rep);
  }

  /** An occurrence at the very start is the one found and replaced. */
  lemma ReplaceAtHead(pat: string, r: string, rep: string)
    ensures IndexOf(pat + r, pat) == 0
    ensures ReplaceFirst(pat + r, pat, rep) == rep + r
  {
    assert (pat + r)[0..|pat|] == pat;
    assert (pat + r)[|pat|..] == r;
  }

  /** The first occurrence of pat is the one replaced, whatever precedes it,
      and the text on either side is kept. */
  lemma ReplaceAtFirstMark(x: string, pat: string, y: string, rep: string)
    requires forall j :: 0 <= j < |x| ==> !OccursAt(x + pat + y, pat, j)
    ensures IndexOf(x + pat + y, pat) == |x|
    ensures ReplaceFirst(x + pat + y, pat, rep) == x + rep + y
  {
    assert x + pat + y == x + (pat + y);
    ReplaceFirstSkip(x, pat + y, pat, rep);
    ReplaceAtHead(pat, y, rep);
  }

  /** Text without pat's first character is searched in vain and left as
      it is. */
  lemma NoMarkUnchanged(s: string, pat: string, rep: string)
    requires |pat| > 0 && pat[0] !in s
    ensures IndexOf(s, pat) == -1
    ensures ReplaceFirst(s, pat, rep) == s
  {
    forall i | 0 <= i && i + |pat| <= |s|
      ensures !OccursAt(s, pat, i)
    {
      assert s[i..i + |pat|][0] == s[i];
    }
  }

  /** Text with none of pat's first character holds no occurrence of pat. */
  lemma NoMarkNoOccurrence(x: string, r: string, pat: string)
    requires |pat| > 0 && pat[0] !in x
    ensures forall j :: 0 <= j < |x| ==> !OccursAt(x + r, pat, j)
  {
    forall j | 0 <= j < |x|
      ensures !OccursAt(x + r, pat, j)
    {
      if j + |pat| <= |x + r| {
        assert (x + r)[j..j + |pat|][0] == x[j];
      }
    }
  }

  /** A single character is found exactly when the string holds it. */
  lemma IndexOfChar(s: string, c: char)
    ensures IndexOf(s, [c]) != -1 <==> c in s
  {
    if c in s {
      var j :| 0 <= j < |s| && s[j] == c;
      assert s[j..j + 1] == [c];
      assert OccursAt(s, [c], j);
    } else {
      forall j | 0 <= j < |s|
        ensures !OccursAt(s, [c], j)
      {
        assert s[j..j + 1][0] == s[j];
      }
    }
  }

  function DigitChar(d: nat): char
    requires d < 10
  {
    (48 + d) as char
  }

  function NatToString(n: nat): (s: string)
    ensures |s| > 0
    ensures forall i :: 0 <= i < |s| ==> '0' <= s[i] <= '9'
  {
    if n < 10 then [DigitChar(n)] else NatToString(n / 10) + [DigitChar(n % 10)]
  }

  /** The number a string of decimal digits spells, most significant first. */
  function DigitsValue(s: string): nat
    requires forall i :: 0 <= i < |s| ==> '0' <= s[i] <= '9'
  {
    if s == [] then 0
    else DigitsValue(s[..|s| - 1]) * 10 + (s[|s| - 1] as int - '0' as int)
  }

  /** The digits spell n, with no leading zero except for 0 itself. */
  lemma {:induction false} NatToStringValue(n: nat)
    ensures DigitsValue(NatToString(n)) == n
    ensures NatToString(n)[0] == '0' ==> n == 0
  {
    var s := NatToString(n);
    if n >= 10 {
      NatToStringValue(n / 10);
      var p := NatToString(n / 10);
      assert s == p + [DigitChar(n % 10)];
      assert s[..|s| - 1] == p;
      assert s[0] == p[0];
    }
  }

  /** `n.toString()` for an integer. */
  function IntToString(n: int): (s: string)
    ensures |s| > 0 && '{' !in s && '?' !in s
  {
    if n < 0 then "-" + NatToString(-n) else NatToString(n)
  }

  /** The decimal form of n: a leading "-" exactly when n is negative,
      followed by the digits of |n|, with no leading zero. */
  lemma IntToStringValue(n: int)
    ensures IntToString(n)[0] == '-' <==> n < 0
    ensures n < 0 ==> DigitsValue(IntToString(n)[1..]) == -n && IntToString(n)[1] != '0'
    ensures n >= 0 ==> DigitsValue(IntToString(n)) == n && (IntToString(n)[0] == '0' ==> n == 0)
  {
    if n < 0 {
      NatToStringValue(-n);
      assert IntToString(n)[1..] == NatToString(-n);
    } else {
      NatToStringValue(n);
    }
  }

  // ---------------------------------------------------------------------
  // buildTileUrl
  // ---------------------------------------------------------------------

  /** The renderer a tile is requested for; only the 2D library numbers rows
      the other way. */
  datatype MapContext = MapLib2D | MapLib3D | OtherContext

  /** The options buildTileUrl reads. `tileMatrixLabels`, when present, maps
      a zoom level to the name of its tile matrix. */
  datatype TileRequest = TileRequest(
    layerId: string,
    url: string,
    tileMatrixSet: string,
    tileMatrixLabels: Option<map<int, string>>,
    col: int,
    row: int,
    level: int,
    format: string,
    context: MapContext)

  /** The row requested: the 2D renderer counts rows upward from -1. */
  function TileRow(o: TileRequest): (row: int)
    ensures o.context == MapLib2D ==> row + o.row == -1
    ensures o.context != MapLib2D ==> row == o.row
  {
    if o.context == MapLib2D then -o.row - 1 else o.row
  }

  /** The tile matrix name: the label of the level when labels are given
      (a missing label reads as "undefined"), else the level's digits. */
  function TileMatrix(o: TileRequest): (m: string)
    ensures o.tileMatrixLabels.None? ==> m == IntToString(o.level)
    ensures o.tileMatrixLabels.Some? && o.level in o.tileMatrixLabels.value ==>
              m == o.tileMatrixLabels.value[o.level]
    ensures o.tileMatrixLabels.Some? && o.level !in o.tileMatrixLabels.value ==> m == "undefined"
  {
    match o.tileMatrixLabels
    case None => IntToString(o.level)
    case Some(labels) => if o.level in labels then labels[o.level] else "undefined"
  }

  /** The URL template with the first occurrence of each placeholder
      substituted, in this order. */
  function FillTemplate(url: string, tileMatrixSet: string, tileMatrix: string, row: string, col: string): (r: string)
    ensures '{' !in url ==> r == url
  {
    var filled :=
      ReplaceFirst(
        ReplaceFirst(
          ReplaceFirst(
            ReplaceFirst(url, "{TileMatrixSet}", tileMatrixSet),
            "{TileMatrix}", tileMatrix),
          "{TileRow}", row),
        "{TileCol}", col);
    if '{' in url then filled
    else
      NoMarkUnchanged(url, "{TileMatrixSet}", tileMatrixSet);
      NoMarkUnchanged(url, "{TileMatrix}", tileMatrix);
      NoMarkUnchanged(url, "{TileRow}", row);
      NoMarkUnchanged(url, "{TileCol}", col);
      filled
  }

  /** The KVP parameters of a GetTile request, in the order they are sent. */
  function KvpQuery(b: Builtins, o: TileRequest): (q: seq<(string, string)>)
    ensures |q| == 10
    ensures forall i :: 0 <= i < 10 ==> q[i].0 == KvpKeys[i]
    ensures q[0].1 == "WMTS" && q[1].1 == "GetTile" && q[2].1 == "1.0.0" && q[4].1 == ""
    ensures q[3].1 == o.layerId && q[5].1 == o.tileMatrixSet && q[6].1 == TileMatrix(o)
    ensures q[7].1 == IntToString(TileRow(o)) && q[8].1 == IntToString(o.col)
    ensures q[9].1 == b.encodeURIComponent(o.format)
  {
    [("SERVICE", "WMTS"),
     ("REQUEST", "GetTile"),
     ("VERSION", "1.0.0"),
     ("LAYER", o.layerId),
     ("STYLE", ""),
     ("TILEMATRIXSET", o.tileMatrixSet),
     ("TILEMATRIX", TileMatrix(o)),
     ("TILEROW", IntToString(TileRow(o))),
     ("TILECOL", IntToString(o.col)),
     ("FORMAT", b.encodeURIComponent(o.format))]
  }

  const KvpKeys: seq<string> :=
    ["SERVICE", "REQUEST", "VERSION", "LAYER", "STYLE",
     "TILEMATRIXSET", "TILEMATRIX", "TILEROW", "TILECOL", "FORMAT"]

  method BuildTileUrl(b: Builtins, o: TileRequest) returns (url: string)
    ensures '{' in o.url ==>
              url == FillTemplate(o.url, o.tileMatrixSet, TileMatrix(o),
                                  IntToString(TileRow(o)), IntToString(o.col))
    ensures '{' !in o.url ==>
              url == ReplaceFirst(o.url, "?", "") + "?" + b.objectToUrlParams(KvpQuery(b, o))
  {
    url := o.url;
    var row := o.row;

    // adjust the tile row
    if o.context == MapLib2D {
      row := -o.row - 1;
    }

    var tileMatrix :=
      match o.tileMatrixLabels
      case Some(labels) => if o.level in labels then labels[o.level] else "undefined"
      case None => IntToString(o.level);

    IndexOfChar(url, '{');
    if IndexOf(url, "{") >= 0 {
      // resolve the tile-URL template
      url := ReplaceFirst(url, "{TileMatrixSet}", o.tileMatrixSet);
      url := ReplaceFirst(url, "{TileMatrix}", tileMatrix);
      url := ReplaceFirst(url, "{TileRow}", IntToString(row));
      url := ReplaceFirst(url, "{TileCol}", IntToString(o.col));
    } else {
      // build the KVP request
      var queryStr := b.objectToUrlParams(KvpQuery(b, o));
      url := ReplaceFirst(url, "?", "");
      url := url + "?" + queryStr;
    }
  }

  // ---------------------------------------------------------------------
  // Tile-URL templates, as a sequence of parts
  // ---------------------------------------------------------------------

  /** A piece of a URL template: plain text holding no "{", or a token
      "{name}" whose name holds neither brace. Tokens other than the four
      placeholders (a "{Style}", say) are tokens too. */
  datatype TemplatePart = Literal(text: string) | Token(name: string)

  predicate WellFormedPart(p: TemplatePart)
  {
    match p
    case Literal(text) => '{' !in text
    case Token(name) => '{' !in name && '}' !in name
  }

  predicate WellFormedParts(ps: seq<TemplatePart>)
  {
    forall k :: 0 <= k < |ps| ==> WellFormedPart(ps[k])
  }

  function RenderPart(p: TemplatePart): string
  {
    match p
    case Literal(text) => text
    case Token(name) => "{" + name + "}"
  }

  /** The template string the parts spell. */
  function Render(ps: seq<TemplatePart>): string
  {
    if ps == [] then "" else RenderPart(ps[0]) + Render(ps[1..])
  }

  /** The first token called `name` replaced by the text `value`. */
  function SubstituteFirst(ps: seq<TemplatePart>, name: string, value: string): (r: seq<TemplatePart>)
    ensures WellFormedParts(ps) && '{' !in value ==> WellFormedParts(r)
  {
    if ps == [] then []
    else if ps[0] == Token(name) then [Literal(value)] + ps[1..]
    else [ps[0]] + SubstituteFirst(ps[1..], name, value)
  }

  /** How many tokens are called `name`. */
  function TokenCount(ps: seq<TemplatePart>, name: string): nat
  {
    if ps == [] then 0 else (if ps[0] == Token(name) then 1 else 0) + TokenCount(ps[1..], name)
  }

  /** The template with the first token of each placeholder substituted, in
      the order buildTileUrl substitutes them. */
  function Substituted(ps: seq<TemplatePart>, tileMatrixSet: string, tileMatrix: string, row: string, col: string): seq<TemplatePart>
  {
    SubstituteFirst(
      SubstituteFirst(
        SubstituteFirst(
          SubstituteFirst(ps, "TileMatrixSet", tileMatrixSet),
          "TileMatrix", tileMatrix),
        "TileRow", row),
      "TileCol", col)
  }

  /** A placeholder cannot start inside the rendering of any other part: a
      "{" opens only a token, and a token of another name cannot match. */
  lemma NotInOtherPart(p: TemplatePart, rest: string, name: string)
    requires WellFormedPart(p) && '{' !in name && '}' !in name && p != Token(name)
    ensures forall j :: 0 <= j < |RenderPart(p)| ==> !OccursAt(RenderPart(p) + rest, "{" + name + "}", j)
  {
    var pat := "{" + name + "}";
    var s := RenderPart(p) + rest;
    forall j | 0 <= j < |RenderPart(p)|
      ensures !OccursAt(s, pat, j)
    {
      if j + |pat| <= |s| {
        ShowMismatch(p, rest, name, j);
      }
    }
  }

  lemma ShowMismatch(p: TemplatePart, rest: string, name: string, j: nat)
    requires WellFormedPart(p) && '{' !in name && '}' !in name && p != Token(name)
    requires j < |RenderPart(p)| && j + |name| + 2 <= |RenderPart(p) + rest|
    ensures (RenderPart(p) + rest)[j..j + |name| + 2] != "{" + name + "}"
  {
    var pat := "{" + name + "}";
    var s := RenderPart(p) + rest;
    {
      var w := s[j..j + |pat|];
      match p
      case Literal(text) =>
        assert w[0] == text[j] && pat[0] == '{';
      case Token(n) =>
        if j > 0 {
          assert w[0] == RenderPart(p)[j] && RenderPart(p)[j] != '{';
        } else if |n| < |name| {
          assert w[|n| + 1] == '}' && pat[|n| + 1] == name[|n|];
        } else if |n| > |name| {
          assert w[|name| + 1] == n[|name|] && pat[|name| + 1] == '}';
        } else {
          var k :| 0 <= k < |n| && n[k] != name[k];
          assert w[k + 1] == n[k] && pat[k + 1] == name[k];
        }
    }
  }

  /** String replacement of a placeholder is substitution of its first token. */
  lemma {:induction false} ReplaceFirstParts(ps: seq<TemplatePart>, name: string, value: string)
    requires WellFormedParts(ps) && '{' !in name && '}' !in name
    ensures ReplaceFirst(Render(ps), "{" + name + "}", value) == Render(SubstituteFirst(ps, name, value))
    ensures TokenCount(ps, name) == 0 ==> IndexOf(Render(ps), "{" + name + "}") == -1
  {
    var pat := "{" + name + "}";
    if ps == [] {
    } else if ps[0] == Token(name) {
      ReplaceAtHead(pat, Render(ps[1..]), value);
    } else {
      assert WellFormedPart(ps[0]);
      NotInOtherPart(ps[0], Render(ps[1..]), name);
      ReplaceFirstParts(ps[1..], name, value);
      ReplaceFirstSkip(RenderPart(ps[0]), Render(ps[1..]), pat, value);
      assert SubstituteFirst(ps, name, value)[1..] == SubstituteFirst(ps[1..], name, value);
    }
  }

  /** Substitution uses up one token of its own name and no other. */
  lemma {:induction false} SubstituteFirstCount(ps: seq<TemplatePart>, name: string, value: string, other: string)
    ensures TokenCount(SubstituteFirst(ps, name, value), name) == if TokenCount(ps, name) == 0 then 0 else TokenCount(ps, name) - 1
    ensures other != name ==> TokenCount(SubstituteFirst(ps, name, value), other) == TokenCount(ps, other)
  {
    if ps != [] && ps[0] != Token(name) {
      SubstituteFirstCount(ps[1..], name, value, other);
      assert SubstituteFirst(ps, name, value)[1..] == SubstituteFirst(ps[1..], name, value);
    } else if ps != [] {
      assert SubstituteFirst(ps, name, value)[1..] == ps[1..];
    }
  }

  /** buildTileUrl fills any template, its placeholders in any order and
      other tokens among them: the filled URL is the template with the first
      token of each placeholder replaced by its value, provided the values
      hold no "{" that a later replacement could match. */
  lemma TemplateFilled(ps: seq<TemplatePart>, tileMatrixSet: string, tileMatrix: string, row: string, col: string)
    requires WellFormedParts(ps)
    requires '{' !in tileMatrixSet && '{' !in tileMatrix && '{' !in row
    ensures FillTemplate(Render(ps), tileMatrixSet, tileMatrix, row, col)
            == Render(Substituted(ps, tileMatrixSet, tileMatrix, row, col))
  {
    FillTemplateSteps(Render(ps), tileMatrixSet, tileMatrix, row, col);
    ReplacementsSubstitute(ps, tileMatrixSet, tileMatrix, row, col);
  }

  /** The four replacements on the rendered template render the four
      substitutions on its parts. */
  lemma ReplacementsSubstitute(ps: seq<TemplatePart>, tileMatrixSet: string, tileMatrix: string, row: string, col: string)
    requires WellFormedParts(ps)
    requires '{' !in tileMatrixSet && '{' !in tileMatrix && '{' !in row
    ensures ReplaceFirst(ReplaceFirst(ReplaceFirst(ReplaceFirst(Render(ps), "{TileMatrixSet}", tileMatrixSet),
              "{TileMatrix}", tileMatrix), "{TileRow}", row), "{TileCol}", col)
            == Render(Substituted(ps, tileMatrixSet, tileMatrix, row, col))
  {
    var p2 := SubstituteFirst(SubstituteFirst(ps, "TileMatrixSet", tileMatrixSet), "TileMatrix", tileMatrix);
    PlaceholderSpelling();
    PlaceholderTwoSteps(ps, "TileMatrixSet", tileMatrixSet, "{TileMatrixSet}", "TileMatrix", tileMatrix, "{TileMatrix}");
    PlaceholderTwoSteps(p2, "TileRow", row, "{TileRow}", "TileCol", col, "{TileCol}");
  }

  lemma PlaceholderTwoSteps(ps: seq<TemplatePart>, name1: string, value1: string, placeholder1: string,
                            name2: string, value2: string, placeholder2: string)
    requires WellFormedParts(ps) && '{' !in value1
    requires '{' !in name1 && '}' !in name1 && placeholder1 == "{" + name1 + "}"
    requires '{' !in name2 && '}' !in name2 && placeholder2 == "{" + name2 + "}"
    ensures ReplaceFirst(ReplaceFirst(Render(ps), placeholder1, value1), placeholder2, value2)
            == Render(SubstituteFirst(SubstituteFirst(ps, name1, value1), name2, value2))
  {
    PlaceholderStep(ps, name1, value1, placeholder1);
    PlaceholderStep(SubstituteFirst(ps, name1, value1), name2, value2, placeholder2);
  }

  /** One replacement of a placeholder spelled out as a string. */
  lemma PlaceholderStep(ps: seq<TemplatePart>, name: string, value: string, placeholder: string)
    requires WellFormedParts(ps) && '{' !in name && '}' !in name && placeholder == "{" + name + "}"
    ensures ReplaceFirst(Render(ps), placeholder, value) == Render(SubstituteFirst(ps, name, value))
  {
    ReplaceFirstParts(ps, name, value);
  }

  lemma PlaceholderSpelling()
    ensures "{" + "TileMatrixSet" + "}" == "{TileMatrixSet}"
    ensures "{" + "TileMatrix" + "}" == "{TileMatrix}"
    ensures "{" + "TileRow" + "}" == "{TileRow}"
    ensures "{" + "TileCol" + "}" == "{TileCol}"
  {
  }

  /** FillTemplate is the four replacements, one after the other. */
  lemma FillTemplateSteps(url: string, tileMatrixSet: string, tileMatrix: string, row: string, col: string)
    ensures FillTemplate(url, tileMatrixSet, tileMatrix, row, col)
            == ReplaceFirst(ReplaceFirst(ReplaceFirst(ReplaceFirst(url, "{TileMatrixSet}", tileMatrixSet),
                 "{TileMatrix}", tileMatrix), "{TileRow}", row), "{TileCol}", col)
  {
  }

  predicate EachPlaceholderAtMostOnce(ps: seq<TemplatePart>)
  {
    TokenCount(ps, "TileMatrixSet") <= 1 && TokenCount(ps, "TileMatrix") <= 1 &&
    TokenCount(ps, "TileRow") <= 1 && TokenCount(ps, "TileCol") <= 1
  }

  /** Substituting one placeholder of a template holding each at most once
      leaves none of that one and at most one of each other. */
  lemma SubstituteOnce(ps: seq<TemplatePart>, name: string, value: string)
    requires EachPlaceholderAtMostOnce(ps) && TokenCount(ps, name) <= 1
    ensures EachPlaceholderAtMostOnce(SubstituteFirst(ps, name, value))
    ensures TokenCount(SubstituteFirst(ps, name, value), name) == 0
    ensures forall other :: TokenCount(ps, other) == 0 ==> TokenCount(SubstituteFirst(ps, name, value), other) == 0
  {
    SubstituteFirstCount(ps, name, value, "TileMatrixSet");
    SubstituteFirstCount(ps, name, value, "TileMatrix");
    SubstituteFirstCount(ps, name, value, "TileRow");
    SubstituteFirstCount(ps, name, value, "TileCol");
    forall other | TokenCount(ps, other) == 0
      ensures TokenCount(SubstituteFirst(ps, name, value), other) == 0
    {
      SubstituteFirstCount(ps, name, value, other);
    }
  }

  /** After the four substitutions no placeholder token is left. */
  lemma SubstitutedLeavesNone(ps: seq<TemplatePart>, tileMatrixSet: string, tileMatrix: string, row: string, col: string)
    requires EachPlaceholderAtMostOnce(ps)
    ensures var q := Substituted(ps, tileMatrixSet, tileMatrix, row, col);
            TokenCount(q, "TileMatrixSet") == 0 && TokenCount(q, "TileMatrix") == 0 &&
            TokenCount(q, "TileRow") == 0 && TokenCount(q, "TileCol") == 0
  {
    var p1 := SubstituteFirst(ps, "TileMatrixSet", tileMatrixSet);
    var p2 := SubstituteFirst(p1, "TileMatrix", tileMatrix);
    var p3 := SubstituteFirst(p2, "TileRow", row);
    SubstituteOnce(ps, "TileMatrixSet", tileMatrixSet);
    SubstituteOnce(p1, "TileMatrix", tileMatrix);
    SubstituteOnce(p2, "TileRow", row);
    SubstituteOnce(p3, "TileCol", col);
  }

  /** A template without a token of this name holds no such placeholder. */
  lemma NoTokenNoPlaceholder(ps: seq<TemplatePart>, name: string)
    requires WellFormedParts(ps) && '{' !in name && '}' !in name && TokenCount(ps, name) == 0
    ensures IndexOf(Render(ps), "{" + name + "}") == -1
  {
    ReplaceFirstParts(ps, name, "");
  }

  /** A template holding each placeholder at most once keeps none of them
      once filled, when the values hold no "{". */
  lemma TemplateFilledCompletely(ps: seq<TemplatePart>, tileMatrixSet: string, tileMatrix: string, row: string, col: string)
    requires WellFormedParts(ps) && EachPlaceholderAtMostOnce(ps)
    requires '{' !in tileMatrixSet && '{' !in tileMatrix && '{' !in row && '{' !in col
    ensures var url := FillTemplate(Render(ps), tileMatrixSet, tileMatrix, row, col);
            IndexOf(url, "{TileMatrixSet}") == -1 && IndexOf(url, "{TileMatrix}") == -1 &&
            IndexOf(url, "{TileRow}") == -1 && IndexOf(url, "{TileCol}") == -1
  {
    var q := Substituted(ps, tileMatrixSet, tileMatrix, row, col);
    TemplateFilled(ps, tileMatrixSet, tileMatrix, row, col);
    SubstitutedLeavesNone(ps, tileMatrixSet, tileMatrix, row, col);
    PlaceholderSpelling();
    NoTokenNoPlaceholder(q, "TileMatrixSet");
    NoTokenNoPlaceholder(q, "TileMatrix");
    NoTokenNoPlaceholder(q, "TileRow");
    NoTokenNoPlaceholder(q, "TileCol");
  }

  /** A KVP base URL without "?" gets one appended before the query. */
  lemma KvpBaseWithoutQuestionMark(base: string, rest: string)
    requires '?' !in base
    ensures ReplaceFirst(base, "?", "") + "?" + rest == base + "?" + rest
  {
    IndexOfChar(base, '?');
  }

  /** A KVP base URL ending in its only "?" keeps it as the separator. */
  lemma KvpBaseWithQuestionMark(base: string, rest: string)
    requires '?' !in base
    ensures ReplaceFirst(base + "?", "?", "") + "?" + rest == base + "?" + rest
  {
    NoMarkNoOccurrence(base, "?" + "", "?");
    assert base + "?" + "" == base + ("?" + "");
    ReplaceAtFirstMark(base, "?", "", "");
    assert base + "?" == base + "?" + "";
    assert base + "" + "" == base;
  }

  // ---------------------------------------------------------------------
  // parseStringExtent
  // ---------------------------------------------------------------------

  /** The reduce over the elements: `false` sticks once an element does not
      parse, otherwise the parsed numbers in order. */
  function ParseAll(b: Builtins, items: seq<JsAny>): Option<seq<real>>
  {
    if items == [] then Some([])
    else
      match ParseAll(b, items[..|items| - 1])
      case None => None
      case Some(acc) =>
        (match b.parseFloat(items[|items| - 1])
         case None => None
         case Some(x) => Some(acc + [x]))
  }

  /** The value parseStringExtent computes. */
  function ParsedExtent(b: Builtins, extent: JsAny): Completion<seq<real>>
  {
    if !extent.Arr? || |extent.items| != 4 then ReturnedFalse
    else
      match ParseAll(b, extent.items)
      case None => ReturnedFalse
      case Some(numbers) => Returned(numbers)
  }

  method ParseStringExtent(b: Builtins, extent: JsAny) returns (r: Completion<seq<real>>)
    ensures r == ParsedExtent(b, extent)
  {
    if !extent.Arr? || |extent.items| != 4 {
      return ReturnedFalse;
    }
    var items := extent.items;
    var acc: Option<seq<real>> := Some([]);
    var i := 0;
    while i < |items|
      invariant 0 <= i <= |items|
      invariant acc == ParseAll(b, items[..i])
    {
      assert items[..i + 1][..i] == items[..i];
      if acc.Some? {
        var num := b.parseFloat(items[i]);
        if num.None? {
          acc := None;
        } else {
          acc := Some(acc.value + [num.value]);
        }
      }
      i := i + 1;
    }
    assert items[..i] == items;
    if acc.None? {
      return ReturnedFalse;
    }
    return Returned(acc.value);
  }

  lemma {:induction false} ParseAllSpec(b: Builtins, items: seq<JsAny>)
    ensures ParseAll(b, items).Some? <==> forall i :: 0 <= i < |items| ==> b.parseFloat(items[i]).Some?
    ensures ParseAll(b, items).Some? ==>
              |ParseAll(b, items).value| == |items|
              && forall i :: 0 <= i < |items| ==> ParseAll(b, items).value[i] == b.parseFloat(items[i]).value
  {
    if items != [] {
      var front := items[..|items| - 1];
      ParseAllSpec(b, front);
      assert forall i :: 0 <= i < |front| ==> front[i] == items[i];
    }
  }

  /** parseStringExtent succeeds exactly on an array of four elements that
      all parse, and then yields the four numbers in order. */
  lemma ParsedExtentSpec(b: Builtins, extent: JsAny)
    ensures ParsedExtent(b, extent).Returned? || ParsedExtent(b, extent) == ReturnedFalse
    ensures ParsedExtent(b, extent).Returned? <==>
              extent.Arr? && |extent.items| == 4
              && forall i :: 0 <= i < 4 ==> b.parseFloat(extent.items[i]).Some?
    ensures ParsedExtent(b, extent).Returned? ==>
              |ParsedExtent(b, extent).value| == 4
              && forall i :: 0 <= i < 4 ==>
                   ParsedExtent(b, extent).value[i] == b.parseFloat(extent.items[i]).value
  {
    if extent.Arr? {
      ParseAllSpec(b, extent.items);
    }
  }

  lemma ParsedExtentExamples(b: Builtins)
    requires b.parseFloat(Str("1")) == Some(1.0) && b.parseFloat(Str("2")) == Some(2.0)
    requires b.parseFloat(Str("3")) == Some(3.0) && b.parseFloat(Str("4")) == Some(4.0)
    requires b.parseFloat(Str("a")) == None
    ensures ParsedExtent(b, Arr([Str("1"), Str("2"), Str("3"), Str("4")])) == Returned([1.0, 2.0, 3.0, 4.0])
    ensures ParsedExtent(b, Arr([Str("a"), Str("2"), Str("3"), Str("4")])) == ReturnedFalse
    ensures ParsedExtent(b, Arr([Num(1.0), Num(2.0), Num(3.0)])) == ReturnedFalse
    ensures ParsedExtent(b, JsUndefined) == ReturnedFalse
  {
    var good := [Str("1"), Str("2"), Str("3"), Str("4")];
    ParsedExtentSpec(b, Arr(good));
    assert good[0] == Str("1") && good[1] == Str("2") && good[2] == Str("3") && good[3] == Str("4");
    var v := ParsedExtent(b, Arr(good)).value;
    assert v[0] == 1.0 && v[1] == 2.0 && v[2] == 3.0 && v[3] == 4.0;
    assert v == [1.0, 2.0, 3.0, 4.0];
    var bad := [Str("a"), Str("2"), Str("3"), Str("4")];
    ParsedExtentSpec(b, Arr(bad));
    assert b.parseFloat(bad[0]).None?;
  }
}
