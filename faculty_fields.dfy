/**
 * Field extraction of the page scraper (`extract_publication_data` in
 * fetch_faculties.py). The HTML parser and its CSS selectors are not part
 * of this model: each search-result row arrives as the texts and hrefs the
 * selectors would have found, and this module models what the code then
 * does with them — the handle-number regex, the author/year split, the
 * assembly of the abstract from text nodes and `<br>` tags, and the loop
 * that turns rows into publication records.
 */
module FacultyFields {

  import opened Wrappers
  import opened Strings
  import opened DigitSearch

  // ---------------------------------------------------------------------
  // Publication id

  /**
   * `re.search(r"/1887/(\d+)", href).group(1)` for the href of the
   * first `a[href^="/handle/1887/"]` link, or None when there is no such
   * link or the regex does not match.
   */
  function IdOf(link: Option<string>): (id: Option<string>)
    ensures id.Some? <==> link.Some? && exists i: nat :: MatchAt(HandleAnchor, link.value, i)
    ensures id.Some? ==> id.value != [] && AllDigits(id.value)
    ensures id.Some? ==> exists i: nat :: MatchAt(HandleAnchor, link.value, i)
                                          && (forall j :: 0 <= j < i ==> !MatchAt(HandleAnchor, link.value, j))
                                          && id.value == DigitRun(link.value, i + AnchorLength)
  {
    match link
    case None => None
    case Some(href) => SearchDigits(HandleAnchor, href)
  }

  /** The prefix every selected link starts with. */
  const HandlePrefix: string := "/handle/1887/"

  /**
   * For a link as the selector picks it — `/handle/1887/`, a handle
   * number, then anything that does not continue the number — the id is
   * exactly that number.
   */
  lemma HandleLinkId(digits: string, rest: string)
    requires digits != [] && AllDigits(digits)
    requires rest == [] || !IsDigit(rest[0])
    ensures IdOf(Some(HandlePrefix + digits + rest)) == Some(digits)
  {
    var s := HandlePrefix + digits + rest;
    assert s[..13] == HandlePrefix;
    assert MatchAt(HandleAnchor, s, 7) by {
      assert s[7..13] == "/1887/";
      assert s[13] == digits[0];
    }
    forall j | 0 <= j < 7 ensures !MatchAt(HandleAnchor, s, j) {
      assert s[j + 1] == HandlePrefix[j + 1] != '1';
      assert s[j..j + 6][1] == s[j + 1];
    }
    assert s[13..13 + |digits|] == digits;
    if rest != [] { assert s[13 + |digits|] == rest[0]; }
    DigitRunIsMaximal(s, 13, digits);
  }

  // ---------------------------------------------------------------------
  // Author and year

  /**
   * `re.sub(r"\s*" + re.escape(y) + r"\s*$", "", s)` matches at start `p`
   * with the escaped year at `q`: whitespace, the year, whitespace, end.
   */
  predicate YearMatch(s: string, y: string, p: nat, q: nat)
  {
    p <= q && q + |y| <= |s| && AllSpace(s[p..q]) && s[q..q + |y|] == y && AllSpace(s[q + |y|..])
  }

  /**
   * The substitution of the trailing year, on the stripped author text
   * `s` and the stripped, non-empty year `y`. It cuts `s` at the leftmost
   * match start; when nothing matches it leaves `s` as it is.
   */
  function DropTrailingYear(s: string, y: string): (r: string)
    requires IsStripped(s) && y != []
    ensures |r| <= |s| && r == s[..|r|]
    ensures r == [] || !IsSpace(r[|r| - 1])
    ensures forall p: nat, q: nat :: YearMatch(s, y, p, q) ==> |r| <= p
    ensures r != s ==> |y| <= |s| && YearMatch(s, y, |r|, |s| - |y|)
    ensures r == s <==> forall p: nat, q: nat :: !YearMatch(s, y, p, q)
  {
    if |y| <= |s| && s[|s| - |y|..] == y then
      var r := TrimEnd(s[..|s| - |y|]);
      assert YearMatch(s, y, |r|, |s| - |y|) by {
        assert s[|r|..|s| - |y|] == s[..|s| - |y|][|r|..];
      }
      forall p: nat, q: nat | YearMatch(s, y, p, q) ensures |r| <= p {
        YearMatchEndsAtEnd(s, y, p, q);
        AllSpaceSlice(s, p, q);
        assert r != [] ==> !IsSpace(s[|r| - 1]);
      }
      r
    else
      forall p: nat, q: nat ensures !YearMatch(s, y, p, q) {
        YearMatchEndsAtEnd(s, y, p, q);
      }
      s
  }

  /** On a stripped text, the year of a match can only stand at the very end. */
  lemma YearMatchEndsAtEnd(s: string, y: string, p: nat, q: nat)
    requires IsStripped(s) && y != []
    ensures YearMatch(s, y, p, q) ==> q == |s| - |y| && s[|s| - |y|..] == y
  {
  }

  /** `re.sub(r";\s*$", "", s)` matches at `p`: a semicolon followed only by whitespace. */
  predicate SemicolonMatch(s: string, p: nat)
  {
    p < |s| && s[p] == ';' && AllSpace(s[p + 1..])
  }

  /** The substitution of one trailing semicolon and the whitespace after it. */
  function DropTrailingSemicolon(s: string): (r: string)
    ensures |r| <= |s| && r == s[..|r|]
    ensures r != s ==> SemicolonMatch(s, |r|)
    ensures forall p: nat :: SemicolonMatch(s, p) ==> r == s[..p]
    ensures (forall p: nat :: !SemicolonMatch(s, p)) ==> r == s
  {
    var t := TrimEnd(s);
    if t != [] && t[|t| - 1] == ';' then
      var p := |t| - 1;
      assert SemicolonMatch(s, p) by {
        assert s[p + 1..] == s[|t|..];
      }
      AllSpaceSlice(s, |t|, |s|);
      forall p': nat | SemicolonMatch(s, p') ensures p' == p {
        AllSpaceSlice(s, p' + 1, |s|);
      }
      t[..p]
    else
      AllSpaceSlice(s, |t|, |s|);
      forall p: nat ensures !SemicolonMatch(s, p) {
        if p < |s| && s[p] == ';' {
          AllSpaceSlice(s, p + 1, |s|);
        }
      }
      s
  }

  datatype AuthorCell = AuthorCell(text: string, yearSpan: Option<string>)

  datatype AuthorYear = AuthorYear(author: Option<string>, year: Option<string>)

  /** `x if x else None` for a string. */
  function NonEmpty(s: string): (r: Option<string>)
    ensures r.None? <==> s == []
    ensures r.Some? ==> r.value == s
  {
    if s == [] then None else Some(s)
  }

  /** The year text: the stripped year span, or "" when the span is missing. */
  function YearText(c: AuthorCell): (y: string)
    ensures IsStripped(y)
    ensures y == [] <==> c.yearSpan.None? || AllSpace(c.yearSpan.value)
  {
    if c.yearSpan.Some? then Strip(c.yearSpan.value) else ""
  }

  /**
   * Author and year of a result row, from the author cell's whole text
   * and its year span. With a year, the trailing year (and the whitespace
   * before it) is removed, then one trailing semicolon (and the whitespace
   * after it), then the text is stripped; without one, the author is the
   * stripped cell text. Empty texts become None.
   */
  function SplitAuthorYear(cell: Option<AuthorCell>): (r: AuthorYear)
    ensures cell.None? ==> r == AuthorYear(None, None)
    ensures r.author.Some? ==> r.author.value != [] && IsStripped(r.author.value)
    ensures cell.Some? ==> r.year == NonEmpty(YearText(cell.value))
    ensures cell.Some? && r.year.None? ==> r.author == NonEmpty(Strip(cell.value.text))
    ensures cell.Some? && r.author.Some? ==> r.author.value <= Strip(cell.value.text)
  {
    match cell
    case None => AuthorYear(None, None)
    case Some(c) =>
      var year := YearText(c);
      var full := Strip(c.text);
      AuthorYear(NonEmpty(AuthorText(full, year)), NonEmpty(year))
  }

  /** The author text of a stripped cell text `full` and a stripped year text. */
  function AuthorText(full: string, year: string): (a: string)
    requires IsStripped(full)
    ensures IsStripped(a) && a <= full
  {
    if year != [] then
      var cut := DropTrailingSemicolon(DropTrailingYear(full, year));
      StripPrefixOfStripped(full, cut);
      Strip(cut)
    else full
  }

  /** Stripping a prefix of a stripped text only trims its end: the result is again a prefix. */
  lemma StripPrefixOfStripped(s: string, p: string)
    requires IsStripped(s) && p <= s
    ensures Strip(p) == TrimEnd(p) && Strip(p) <= s
  {
    if p != [] { assert p[0] == s[0]; }
  }

  /**
   * What separates author from year in `s[i..j]`: whitespace with at most
   * one semicolon in it.
   */
  predicate Separator(s: string, i: nat, j: nat)
    requires i <= j <= |s|
  {
    && (forall k :: i <= k < j ==> IsSpace(s[k]) || s[k] == ';')
    && (forall k, l :: i <= k < l < j && s[k] == ';' ==> s[l] != ';')
  }

  /**
   * When the stripped cell text ends with the year, it reads: the author,
   * then a separator (whitespace and at most one semicolon), then the
   * year. Nothing but the separator and the year is ever removed.
   */
  lemma AuthorYearDecomposition(c: AuthorCell)
    requires YearText(c) != [] && EndsWith(Strip(c.text), YearText(c))
    ensures var full, y := Strip(c.text), YearText(c);
            var a := SplitAuthorYear(Some(c)).author.GetOr("");
            |a| + |y| <= |full| && a <= full && Separator(full, |a|, |full| - |y|)
  {
    var full, y := Strip(c.text), YearText(c);
    var a := AuthorText(full, y);
    assert SplitAuthorYear(Some(c)).author.GetOr("") == a by {
      assert SplitAuthorYear(Some(c)) == AuthorYear(NonEmpty(a), NonEmpty(y));
    }
    TrailingYearSeparated(full, y);
  }

  /** `s` ends with `y`. */
  predicate EndsWith(s: string, y: string)
  {
    |y| <= |s| && s[|s| - |y|..] == y
  }

  lemma TrailingYearSeparated(full: string, y: string)
    requires IsStripped(full) && y != [] && EndsWith(full, y)
    ensures var a := AuthorText(full, y);
            |a| + |y| <= |full| && a <= full && Separator(full, |a|, |full| - |y|)
  {
    var q := |full| - |y|;
    var s1 := DropTrailingYear(full, y);
    assert s1 != full by {
      assert YearMatch(full, y, q, q);
    }
    assert YearMatch(full, y, |s1|, q);
    var s2 := DropTrailingSemicolon(s1);
    StripPrefixOfStripped(full, s2);
    var a := Strip(s2);
    assert AuthorText(full, y) == a;
    // |a| .. |s2|: the whitespace cut by the final strip
    AllSpaceSlice(s2, |a|, |s2|);
    forall k | |a| <= k < |s2| ensures IsSpace(full[k]) { assert s2[k] == full[k]; }
    // |s2| .. |s1|: the semicolon, which is the last character of s1
    if s2 != s1 {
      SemicolonIsLast(s1, |s2|);
      assert full[|s2|] == ';' by { assert s1[|s2|] == full[|s2|]; }
    }
    // |s1| .. q: the whitespace before the year
    AllSpaceSlice(full, |s1|, q);
    SeparatorFromCuts(full, |a|, |s2|, |s1|, q);
  }

  /** A semicolon match on a text that does not end in whitespace is its last character. */
  lemma SemicolonIsLast(s: string, p: nat)
    requires SemicolonMatch(s, p) && !IsSpace(s[|s| - 1])
    ensures p == |s| - 1
  {
    AllSpaceSlice(s, p + 1, |s|);
  }

  /** Whitespace, at most one semicolon, whitespace: a separator. */
  lemma SeparatorFromCuts(s: string, i0: nat, i1: nat, i2: nat, j: nat)
    requires i0 <= i1 <= i2 <= j <= |s|
    requires forall k :: i0 <= k < i1 ==> IsSpace(s[k])
    requires i1 < i2 ==> i2 == i1 + 1 && s[i1] == ';'
    requires forall k :: i2 <= k < j ==> IsSpace(s[k])
    ensures Separator(s, i0, j)
  {
  }

  // ---------------------------------------------------------------------
  // Abstract

  /** A child of the abstract's last span: a text node, a `<br>`, or another tag. */
  datatype Node = TextNode(text: string) | BrTag | OtherTag

  /** What one child adds to the abstract: its stripped text, a newline for `<br>`, nothing otherwise. */
  function Piece(n: Node): string
  {
    match n
    case TextNode(t) => Strip(t)
    case BrTag => "\n"
    case OtherTag => ""
  }

  /** The children's pieces, concatenated in document order. */
  function Joined(nodes: seq<Node>): string
  {
    if nodes == [] then "" else Joined(nodes[..|nodes| - 1]) + Piece(nodes[|nodes| - 1])
  }

  /** Joining distributes over concatenation of the children. */
  lemma {:induction false} JoinedAppend(a: seq<Node>, b: seq<Node>)
    ensures Joined(a + b) == Joined(a) + Joined(b)
    decreases |b|
  {
    if b != [] {
      assert (a + b)[..|a + b| - 1] == a + b[..|b| - 1];
      JoinedAppend(a, b[..|b| - 1]);
    } else {
      assert a + b == a;
    }
  }

  /** Each `<br>` stands as exactly one newline between the text before and after it. */
  lemma BrIsNewline(a: seq<Node>, b: seq<Node>)
    ensures Joined(a + [BrTag] + b) == Joined(a) + "\n" + Joined(b)
  {
    JoinedAppend(a + [BrTag], b);
    assert (a + [BrTag])[..|a|] == a;
  }

  /** `"".join(parts)`. */
  function Concat(parts: seq<string>): string
  {
    if parts == [] then "" else Concat(parts[..|parts| - 1]) + parts[|parts| - 1]
  }

  /**
   * The loop over the span's children that collects the parts, then the
   * join and the final strip.
   */
  method AssembleAbstract(nodes: seq<Node>) returns (text: string)
    ensures text == Strip(Joined(nodes))
    ensures IsStripped(text)
  {
    var parts: seq<string> := [];
    for i := 0 to |nodes|
      invariant Concat(parts) == Joined(nodes[..i])
    {
      assert nodes[..i + 1][..i] == nodes[..i];
      match nodes[i] {
        case TextNode(t) =>
          assert (parts + [Strip(t)])[..|parts|] == parts;
          parts := parts + [Strip(t)];
        case BrTag =>
          assert (parts + ["\n"])[..|parts|] == parts;
          parts := parts + ["\n"];
        case OtherTag =>
      }
    }
    assert nodes[..|nodes|] == nodes;
    text := Strip(Concat(parts));
  }

  /**
   * Where the abstract comes from: the toggle wrapper's last span, the
   * abstract cell's own text, or nothing (no cell, or the cell is the
   * embargo notice). Which of these applies is decided by the selectors.
   */
  datatype AbstractCell = Toggle(nodes: seq<Node>) | Direct(text: string) | NoAbstract

  function AbstractOf(cell: AbstractCell): (r: Option<string>)
    ensures r.None? <==> cell.NoAbstract?
    ensures r.Some? ==> IsStripped(r.value)
  {
    match cell
    case Toggle(nodes) => Some(Strip(Joined(nodes)))
    case Direct(t) => Some(Strip(t))
    case NoAbstract => None
  }

  /** The abstract branch of the row loop; an abstract that is present is always stripped. */
  method AbstractText(cell: AbstractCell) returns (text: Option<string>)
    ensures text == AbstractOf(cell)
    ensures text.Some? ==> IsStripped(text.value)
  {
    match cell {
      case Toggle(nodes) =>
        var t := AssembleAbstract(nodes);
        text := Some(t);
      case Direct(t) =>
        text := Some(Strip(t));
      case NoAbstract =>
        text := None;
    }
  }

  // ---------------------------------------------------------------------
  // Rows and publications

  /** `tag.text.strip() if tag else None`. */
  function StrippedText(tag: Option<string>): (r: Option<string>)
    ensures r.Some? <==> tag.Some?
    ensures r.Some? ==> IsStripped(r.value) && (r.value == [] <==> AllSpace(tag.value))
  {
    match tag
    case None => None
    case Some(t) => Some(Strip(t))
  }

  /** What the selectors find in one `div.ubl-resultrow` result. */
  datatype ResultRow = ResultRow(
    idLink: Option<string>,
    title: Option<string>,
    authorCell: Option<AuthorCell>,
    resourceType: Option<string>,
    availability: Option<string>,
    abstractCell: AbstractCell)

  /** The `item_data` dictionary built for one row. */
  datatype Publication = Publication(
    id: Option<string>,
    title: Option<string>,
    author: Option<string>,
    year: Option<string>,
    resourceType: Option<string>,
    availability: Option<string>,
    abstractText: Option<string>)

  /**
   * The dictionary of one row: a missing tag gives None, a found one its
   * stripped text. The id is present exactly when the link holds
   * `/1887/` and a digit, and is then a digit run; the year is the
   * non-empty stripped year text; without a year the author is the
   * non-empty stripped cell text; a row without an author cell has
   * neither.
   */
  function PublicationOf(row: ResultRow): (p: Publication)
    ensures p.id.Some? <==> row.idLink.Some? && exists i: nat :: MatchAt(HandleAnchor, row.idLink.value, i)
    ensures p.id.Some? ==> p.id.value != [] && AllDigits(p.id.value)
    ensures p.title.Some? <==> row.title.Some?
    ensures p.resourceType.Some? <==> row.resourceType.Some?
    ensures p.availability.Some? <==> row.availability.Some?
    ensures p.abstractText.Some? <==> !row.abstractCell.NoAbstract?
    ensures row.authorCell.None? ==> p.author.None? && p.year.None?
    ensures row.authorCell.Some? ==> p.year == NonEmpty(YearText(row.authorCell.value))
    ensures row.authorCell.Some? && p.year.None? ==> p.author == NonEmpty(Strip(row.authorCell.value.text))
    ensures p.author.Some? ==> p.author.value != [] && IsStripped(p.author.value)
    ensures p.year.Some? ==> p.year.value != [] && IsStripped(p.year.value)
    ensures p.title.Some? ==> IsStripped(p.title.value)
    ensures p.resourceType.Some? ==> IsStripped(p.resourceType.value)
    ensures p.availability.Some? ==> IsStripped(p.availability.value)
    ensures p.abstractText.Some? ==> IsStripped(p.abstractText.value)
  {
    var ay := SplitAuthorYear(row.authorCell);
    Publication(IdOf(row.idLink), StrippedText(row.title), ay.author, ay.year,
                StrippedText(row.resourceType), StrippedText(row.availability),
                AbstractOf(row.abstractCell))
  }

  /** The publications of a page's rows, one per row, in order. */
  function PublicationsOf(rows: seq<ResultRow>): (ps: seq<Publication>)
    ensures |ps| == |rows|
  {
    if rows == [] then [] else PublicationsOf(rows[..|rows| - 1]) + [PublicationOf(rows[|rows| - 1])]
  }

  /** The `i`-th publication is the `i`-th row's. */
  lemma {:induction false} PublicationsOfAt(rows: seq<ResultRow>, i: nat)
    requires i < |rows|
    ensures PublicationsOf(rows)[i] == PublicationOf(rows[i])
    decreases |rows|
  {
    if i < |rows| - 1 {
      var init := rows[..|rows| - 1];
      PublicationsOfAt(init, i);
      assert PublicationsOf(rows)[i] == PublicationsOf(init)[i];
    }
  }

  /**
   * `extract_publication_data`: one publication per result row, in the
   * order of the rows; a page without result rows gives the empty list.
   */
  method ExtractPublicationData(rows: seq<ResultRow>) returns (publications: seq<Publication>)
    ensures |publications| == |rows|
    ensures forall i :: 0 <= i < |rows| ==> publications[i] == PublicationOf(rows[i])
    ensures publications == PublicationsOf(rows)
  {
    publications := [];
    for i := 0 to |rows|
      invariant publications == PublicationsOf(rows[..i])
    {
      assert rows[..i + 1][..i] == rows[..i];
      var row := rows[i];
      var abstractText := AbstractText(row.abstractCell);
      var item := PublicationOf(row).(abstractText := abstractText);
      publications := publications + [item];
    }
    assert rows[..|rows|] == rows;
    forall i | 0 <= i < |rows| ensures publications[i] == PublicationOf(rows[i]) {
      PublicationsOfAt(rows, i);
    }
  }
}
