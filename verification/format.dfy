/** `formatProduct` (python/eups/sql.py lines 170-178): the fixed-width line
    `listProducts` prints for one product, and the reading of such a line
    back into its fields, which shows that the layout loses nothing when
    names, versions and tags are single words. */
module Format {

  import opened Base
  import opened Text

  /** The width of the name column (`%-30s`). */
  const NameWidth: nat := 30
  /** The width of the version column (`%-16s`). */
  const VersionWidth: nat := 16

  /** `depth` blanks; a negative depth gives none, as Python's string
      repetition does. */
  function Indent(depth: int): string
  {
    Spaces(if depth < 0 then 0 else depth)
  }

  /** What follows the version column: nothing when `productTagNames` is
      `None` or empty, otherwise a blank and the tag names joined by ", ". */
  function TagSuffix(tags: Option<seq<string>>): string
  {
    if tags.Some? && |tags.value| > 0 then " " + Join(tags.value, ", ") else ""
  }

  /** `formatProduct(name, version, productTagNames, depth)`: the indented
      name left-justified in 30 columns, a blank, the version left-justified
      in 16 columns, then the tag suffix. A field longer than its column is
      kept whole and pushes the rest of the line to the right. */
  function FormatProduct(name: string, version: string, tags: Option<seq<string>>, depth: int): (r: string)
    ensures |r| == Max(|Indent(depth) + name|, NameWidth) + 1 + Max(|version|, VersionWidth) + |TagSuffix(tags)|
  {
    PadRight(Indent(depth) + name, NameWidth) + " " + PadRight(version, VersionWidth) + TagSuffix(tags)
  }

  /** A formatted line, cut at the edges of its fields. */
  lemma {:induction false} FormatPieces(name: string, version: string, tags: Option<seq<string>>, depth: int)
    ensures var head := Indent(depth) + name;
      var p1 := Max(|head|, NameWidth) - |head|;
      var p2 := Max(|version|, VersionWidth) - |version|;
      FormatProduct(name, version, tags, depth)
        == head + (Spaces(p1) + (" " + (version + (Spaces(p2) + TagSuffix(tags)))))
  {
    var head := Indent(depth) + name;
    PadRightSpaces(head, NameWidth);
    PadRightSpaces(version, VersionWidth);
  }

  /** A field followed by `k` blanks and then the rest of a line. */
  lemma PaddedField(x: string, k: nat, rest: string)
    ensures var r := x + (Spaces(k) + rest);
      && r[..|x|] == x
      && AllSpaces(r[|x|..|x| + k])
      && r[|x| + k..] == rest
  {
    var r := x + (Spaces(k) + rest);
    assert r[|x|..] == Spaces(k) + rest;
    assert r[|x|..|x| + k] == Spaces(k);
  }

  /** The name column: the indented name from column 0, then blanks up to
      column 30, or none after a name that already fills it, then one
      blank. */
  lemma FormatNameColumn(name: string, version: string, tags: Option<seq<string>>, depth: int)
    ensures var r := FormatProduct(name, version, tags, depth);
      var head := Indent(depth) + name;
      var w := Max(|head|, NameWidth);
      && r[..|head|] == head
      && AllSpaces(r[|head|..w])
      && r[w] == ' '
  {
    FormatPieces(name, version, tags, depth);
    var head := Indent(depth) + name;
    var p1 := Max(|head|, NameWidth) - |head|;
    var p2 := Max(|version|, VersionWidth) - |version|;
    var rest := " " + (version + (Spaces(p2) + TagSuffix(tags)));
    PaddedField(head, p1, rest);
  }

  /** The version column: it starts one blank after the name column, is
      padded with blanks to 16 columns unless longer, and the tag suffix
      fills the rest of the line. */
  lemma FormatVersionColumn(name: string, version: string, tags: Option<seq<string>>, depth: int)
    ensures var r := FormatProduct(name, version, tags, depth);
      var w := Max(|Indent(depth) + name|, NameWidth);
      var v := w + 1 + Max(|version|, VersionWidth);
      && r[w + 1..w + 1 + |version|] == version
      && AllSpaces(r[w + 1 + |version|..v])
      && r[v..] == TagSuffix(tags)
  {
    FormatPieces(name, version, tags, depth);
    var head := Indent(depth) + name;
    VersionColumnOf(head, Max(|head|, NameWidth) - |head|, version, Max(|version|, VersionWidth) - |version|, TagSuffix(tags));
  }

  /** The second column of a line made of a first column padded by `p1`
      blanks, one blank, and `version` padded by `p2` blanks. */
  lemma VersionColumnOf(head: string, p1: nat, version: string, p2: nat, suffix: string)
    ensures var r := head + (Spaces(p1) + (" " + (version + (Spaces(p2) + suffix))));
      var w := |head| + p1;
      && r[w + 1..w + 1 + |version|] == version
      && AllSpaces(r[w + 1 + |version|..w + 1 + |version| + p2])
      && r[w + 1 + |version| + p2..] == suffix
  {
    var field := version + (Spaces(p2) + suffix);
    var prefix := head + Spaces(p1) + " ";
    assert head + (Spaces(p1) + (" " + field)) == prefix + field;
    PaddedColumn(prefix, version, p2, suffix);
  }

  /** A field that starts after `prefix` and is followed by `k` blanks. */
  lemma PaddedColumn(prefix: string, x: string, k: nat, rest: string)
    ensures var r := prefix + (x + (Spaces(k) + rest));
      && r[|prefix|..|prefix| + |x|] == x
      && AllSpaces(r[|prefix| + |x|..|prefix| + |x| + k])
      && r[|prefix| + |x| + k..] == rest
  {
    var field := x + (Spaces(k) + rest);
    var r := prefix + field;
    PaddedField(x, k, rest);
    assert r[|prefix|..] == field;
    assert r[|prefix|..|prefix| + |x|] == field[..|x|];
    assert r[|prefix| + |x|..|prefix| + |x| + k] == field[|x|..|x| + k];
    assert r[|prefix| + |x| + k..] == field[|x| + k..];
  }

  // ---------------------------------------------------------------------
  // Reading a line back

  /** The number of blanks a string starts with. */
  function LeadingSpaces(s: string): (n: nat)
    ensures n <= |s|
  {
    if |s| > 0 && s[0] == ' ' then 1 + LeadingSpaces(s[1..]) else 0
  }

  function SkipSpaces(s: string): string
  {
    s[LeadingSpaces(s)..]
  }

  /** The longest prefix without a blank. */
  function Token(s: string): (t: string)
    ensures |t| <= |s|
  {
    if |s| > 0 && s[0] != ' ' then [s[0]] + Token(s[1..]) else ""
  }

  /** The longest prefix without a comma. */
  function UpToComma(s: string): (p: string)
    ensures |p| <= |s|
  {
    if |s| > 0 && s[0] != ',' then [s[0]] + UpToComma(s[1..]) else ""
  }

  /** The pieces of a ", "-separated list. */
  function SplitTags(s: string): seq<string>
    decreases |s|
  {
    if |s| == 0 then []
    else
      var p := UpToComma(s);
      if |p| == |s| then [s]
      else if |p| + 2 >= |s| then [p]
      else [p] + SplitTags(s[|p| + 2..])
  }

  datatype Line = Line(depth: nat, name: string, version: string, tags: seq<string>)

  /** The fields of a printed line: the indentation, the first two words,
      and the ", "-separated words after them. */
  function ParseLine(line: string): Line
  {
    var depth := LeadingSpaces(line);
    ParseName(depth, line[depth..])
  }

  /** The fields after the indentation. */
  function ParseName(depth: nat, s: string): Line
  {
    var name := Token(s);
    ParseVersion(depth, name, SkipSpaces(s[|name|..]))
  }

  /** The fields after the name and the blanks that follow it. */
  function ParseVersion(depth: nat, name: string, s: string): Line
  {
    var version := Token(s);
    Line(depth, name, version, SplitTags(SkipSpaces(s[|version|..])))
  }

  /** A non-empty string with no blank. */
  predicate Word(s: string)
  {
    |s| > 0 && forall i :: 0 <= i < |s| ==> s[i] != ' '
  }

  /** A word that is also free of commas, as a tag name must be for the
      joined list to split back. */
  predicate TagWord(s: string)
  {
    Word(s) && forall i :: 0 <= i < |s| ==> s[i] != ','
  }

  function ShownTags(tags: Option<seq<string>>): seq<string>
  {
    if tags.Some? then tags.value else []
  }

  lemma {:induction false} TokenStops(w: string, rest: string)
    requires forall i :: 0 <= i < |w| ==> w[i] != ' '
    requires |rest| == 0 || rest[0] == ' '
    ensures Token(w + rest) == w
  {
    if |w| > 0 {
      assert (w + rest)[1..] == w[1..] + rest;
      TokenStops(w[1..], rest);
      assert w == [w[0]] + w[1..];
    } else {
      assert w + rest == rest;
    }
  }

  lemma {:induction false} UpToCommaStops(w: string, rest: string)
    requires forall i :: 0 <= i < |w| ==> w[i] != ','
    requires |rest| == 0 || rest[0] == ','
    ensures UpToComma(w + rest) == w
  {
    if |w| > 0 {
      assert (w + rest)[1..] == w[1..] + rest;
      UpToCommaStops(w[1..], rest);
      assert w == [w[0]] + w[1..];
    } else {
      assert w + rest == rest;
    }
  }

  lemma {:induction false} SkipIndent(k: nat, x: string)
    requires |x| == 0 || x[0] != ' '
    ensures LeadingSpaces(Spaces(k) + x) == k
    ensures SkipSpaces(Spaces(k) + x) == x
  {
    if k > 0 {
      assert (Spaces(k) + x)[1..] == Spaces(k - 1) + x;
      SkipIndent(k - 1, x);
    } else {
      assert Spaces(k) + x == x;
    }
  }

  lemma PadRightSpaces(s: string, width: nat)
    ensures PadRight(s, width) == s + Spaces(Max(|s|, width) - |s|)
  {
    if |s| >= width {
      assert Spaces(0) == "";
    }
  }

  /** Joining tag words with ", " and splitting the result gives them back. */
  lemma {:induction false} SplitJoin(tags: seq<string>)
    requires forall k :: 0 <= k < |tags| ==> TagWord(tags[k])
    ensures SplitTags(Join(tags, ", ")) == tags
  {
    if |tags| == 1 {
      UpToCommaStops(tags[0], "");
      assert tags[0] + "" == tags[0];
    } else if |tags| > 1 {
      var rest := Join(tags[1..], ", ");
      assert |rest| > 0 by {
        assert |tags[1..]| > 0 && TagWord(tags[1]);
        JoinStartsWithFirst(tags[1..], ", ");
      }
      SplitOne(tags[0], rest);
      SplitJoin(tags[1..]);
      assert tags == [tags[0]] + tags[1..];
    }
  }

  /** The first piece of a ", "-separated list is split off whole. */
  lemma SplitOne(w: string, rest: string)
    requires TagWord(w) && |rest| > 0
    ensures SplitTags(w + ", " + rest) == [w] + SplitTags(rest)
  {
    var s := w + ", " + rest;
    assert s == w + (", " + rest);
    UpToCommaStops(w, ", " + rest);
    assert UpToComma(s) == w && |w| + 2 < |s|;
    assert s[|w| + 2..] == rest;
  }

  /** A join of a non-empty list starts with its first element. */
  lemma {:induction false} JoinStartsWithFirst(parts: seq<string>, sep: string)
    requires |parts| > 0
    ensures |Join(parts, sep)| >= |parts[0]|
    ensures Join(parts, sep)[..|parts[0]|] == parts[0]
  {
    if |parts| > 1 {
      var j := Join(parts, sep);
      assert j == parts[0] + (sep + Join(parts[1..], sep));
    }
  }

  /** The tag suffix starts with a blank followed by a non-blank, or is
      empty. */
  lemma TagSuffixShape(tags: Option<seq<string>>)
    requires forall k :: 0 <= k < |ShownTags(tags)| ==> TagWord(ShownTags(tags)[k])
    ensures TagSuffix(tags) == "" <==> |ShownTags(tags)| == 0
    ensures |ShownTags(tags)| > 0 ==>
      var j := Join(ShownTags(tags), ", ");
      TagSuffix(tags) == " " + j && |j| > 0 && j[0] != ' '
  {
    if |ShownTags(tags)| > 0 {
      var ts := ShownTags(tags);
      JoinStartsWithFirst(ts, ", ");
      assert TagWord(ts[0]);
      assert Join(ts, ", ")[0] == Join(ts, ", ")[..|ts[0]|][0] == ts[0][0];
    }
  }

  /** The version column and what follows it read back. */
  lemma {:induction false} ParseVersionPiece(depth: nat, name: string, version: string, p2: nat, tags: Option<seq<string>>)
    requires Word(version)
    requires forall k :: 0 <= k < |ShownTags(tags)| ==> TagWord(ShownTags(tags)[k])
    ensures ParseVersion(depth, name, version + (Spaces(p2) + TagSuffix(tags))) == Line(depth, name, version, ShownTags(tags))
  {
    var suffix := TagSuffix(tags);
    TagSuffixShape(tags);
    var tail := Spaces(p2) + suffix;
    if p2 > 0 {
      TokenStops(version, tail);
    } else {
      assert tail == suffix;
      TokenStops(version, suffix);
    }
    assert (version + tail)[|version|..] == tail;
    if |ShownTags(tags)| > 0 {
      var j := Join(ShownTags(tags), ", ");
      assert tail == Spaces(p2 + 1) + j;
      SkipIndent(p2 + 1, j);
      SplitJoin(ShownTags(tags));
    } else {
      assert tail == Spaces(p2) + "";
      SkipIndent(p2, "");
    }
  }

  /** The name column read back: the name is the first word, and the blanks
      after it are skipped. */
  lemma {:induction false} ParseNamePiece(depth: nat, name: string, p1: nat, rest: string)
    requires Word(name)
    requires |rest| == 0 || rest[0] != ' '
    ensures ParseName(depth, name + (Spaces(p1) + (" " + rest))) == ParseVersion(depth, name, rest)
  {
    var tail := Spaces(p1 + 1) + rest;
    assert Spaces(p1) + (" " + rest) == tail;
    TokenStops(name, tail);
    assert (name + tail)[|name|..] == tail;
    SkipIndent(p1 + 1, rest);
    assert ParseName(depth, name + tail) == ParseVersion(depth, name, SkipSpaces(tail));
  }

  /** The indentation read back. */
  lemma {:induction false} ParseIndentPiece(depth: nat, rest: string)
    requires |rest| == 0 || rest[0] != ' '
    ensures ParseLine(Spaces(depth) + rest) == ParseName(depth, rest)
  {
    SkipIndent(depth, rest);
    assert (Spaces(depth) + rest)[depth..] == rest;
  }

  /** Reading a formatted line gives back the depth, the name, the version and
      the tags shown, provided each of them is a single word and the tags
      contain no comma. */
  lemma FormatParses(name: string, version: string, tags: Option<seq<string>>, depth: nat)
    requires Word(name) && Word(version)
    requires forall k :: 0 <= k < |ShownTags(tags)| ==> TagWord(ShownTags(tags)[k])
    ensures ParseLine(FormatProduct(name, version, tags, depth)) == Line(depth, name, version, ShownTags(tags))
  {
    FormatPieces(name, version, tags, depth);
    var head := Indent(depth) + name;
    var p1 := Max(|head|, NameWidth) - |head|;
    var p2 := Max(|version|, VersionWidth) - |version|;
    var afterName := version + (Spaces(p2) + TagSuffix(tags));
    var afterIndent := name + (Spaces(p1) + (" " + afterName));
    assert head + (Spaces(p1) + (" " + afterName)) == Spaces(depth) + afterIndent;
    ParseVersionPiece(depth, name, version, p2, tags);
    ParseNamePiece(depth, name, p1, afterName);
    ParseIndentPiece(depth, afterIndent);
  }
}
