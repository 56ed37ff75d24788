/**
 * makeMarkdown: the Markdown that refers to an uploaded file, an inline image
 * for four image MIME types and a link for everything else. ParseSnippet is a
 * conservative reader of CommonMark inline links and images (sections 6.3 and
 * 6.4 of the CommonMark specification, version 0.31): it reads the text and
 * destination only where they contain nothing that CommonMark would
 * interpret, and refuses everything else.
 */
module Markdown {
  import opened Wrappers

  /** How a snippet renders: embedded as an image, or as a link. */
  datatype RenderMode = Embed | Link

  /** What a snippet refers to, as a Markdown renderer reads it. */
  datatype Reference = Reference(displayText: string, target: string, mode: RenderMode)

  /** The MIME types shown inline. Matching is exact and case-sensitive. */
  predicate IsImageType(mimeType: string) {
    mimeType == "image/png" || mimeType == "image/jpeg" || mimeType == "image/jpg" || mimeType == "image/gif"
  }

  function Classify(mimeType: string): RenderMode {
    if IsImageType(mimeType) then Embed else Link
  }

  /**
   * makeMarkdown: image syntax for the image types, link syntax for every
   * other string. The snippet starts with '!' exactly for the image types;
   * the file name follows the '[' and the location sits between "](" and the
   * closing ')'.
   */
  function MakeMarkdown(filename: string, mimeType: string, location: string): (snippet: string)
    ensures |snippet| == |filename| + |location| + (if IsImageType(mimeType) then 5 else 4)
    ensures snippet[0] == '!' <==> IsImageType(mimeType)
    ensures var start := if IsImageType(mimeType) then 2 else 1;
            snippet[start - 1] == '[' && snippet[start..start + |filename|] == filename
            && snippet[start + |filename|..start + |filename| + 2] == "]("
            && snippet[|snippet| - 1 - |location|..|snippet| - 1] == location
            && snippet[|snippet| - 1] == ')'
  {
    if IsImageType(mimeType) then "![" + filename + "](" + location + ")"
    else "[" + filename + "](" + location + ")"
  }

  /** The image syntax is produced exactly for the four image types. */
  lemma ImageExactlyForImageTypes(filename: string, mimeType: string, location: string)
    ensures MakeMarkdown(filename, mimeType, location) == "![" + filename + "](" + location + ")"
            <==> IsImageType(mimeType)
  {
  }

  /** Every other MIME type string, including "image/PNG" and "image/webp", gets the link syntax. */
  lemma LinkExactlyForOtherTypes(filename: string, mimeType: string, location: string)
    ensures MakeMarkdown(filename, mimeType, location) == "[" + filename + "](" + location + ")"
            <==> !IsImageType(mimeType)
  {
  }

  /** Matching is case-sensitive and closed: these near misses are links. */
  lemma NearMissesAreLinks()
    ensures !IsImageType("image/PNG") && !IsImageType("image/webp") && !IsImageType("image/svg+xml")
  {
  }

  /** An image snippet is "!" followed by the link snippet for the same name and location. */
  lemma ImageIsBangLink(filename: string, image: string, other: string, location: string)
    requires IsImageType(image) && !IsImageType(other)
    ensures MakeMarkdown(filename, image, location) == "!" + MakeMarkdown(filename, other, location)
  {
  }

  /** The image syntax is the link syntax with a '!' in front. */
  lemma BangThenLink(filename: string, location: string)
    ensures "![" + filename + "](" + location + ")" == "!" + ("[" + filename + "](" + location + ")")
  {
  }

  // ---------------------------------------------------------------- reading a snippet back

  /** The first index of c in s, or None. */
  function IndexOf(s: string, c: char): (r: Option<nat>)
    ensures r.Some? ==> r.value < |s| && s[r.value] == c && c !in s[..r.value]
    ensures r.None? ==> c !in s
  {
    if s == [] then None
    else if s[0] == c then Some(0)
    else
      match IndexOf(s[1..], c)
      case None => None
      case Some(i) => Some(i + 1)
  }

  lemma {:induction false} IndexOfAfterPrefix(p: string, t: string, c: char)
    requires c !in p && t != [] && t[0] == c
    ensures IndexOf(p + t, c) == Some(|p|)
  {
    if p != [] {
      assert (p + t)[0] == p[0] && (p + t)[1..] == p[1..] + t;
      assert c !in p[1..] by {
        forall i | 0 <= i < |p[1..]| ensures p[1..][i] != c {
          assert p[1..][i] == p[i + 1];
        }
      }
      IndexOfAfterPrefix(p[1..], t, c);
    } else {
      assert p + t == t;
    }
  }

  /**
   * Link text that renders as itself: no brackets, no backslash escape, no
   * entity reference, no emphasis, code span or HTML, no control character.
   */
  predicate PlainText(s: string) {
    forall i :: 0 <= i < |s| ==> s[i] >= ' ' && s[i] !in "[]\\&*_`<"
  }

  /** Every ')' closes an earlier '(' and, with open parentheses still open before s, all are closed at the end. */
  predicate BalancedFrom(s: string, open: nat)
    decreases |s|
  {
    if s == [] then open == 0
    else if s[0] == '(' then BalancedFrom(s[1..], open + 1)
    else if s[0] == ')' then open > 0 && BalancedFrom(s[1..], open - 1)
    else BalancedFrom(s[1..], open)
  }

  /**
   * A link destination CommonMark takes literally: no space and no ASCII
   * control character, no backslash escape or entity reference, no '<', and
   * parentheses only in balanced pairs. The empty destination is allowed.
   */
  predicate PlainDestination(s: string) {
    (forall i :: 0 <= i < |s| ==> s[i] > ' ' && s[i] as int != 0x7F && s[i] !in "\\&<")
    && BalancedFrom(s, 0)
  }

  /**
   * Reads "[text](destination)", the text ending at the first ']', when the
   * text and the destination are plain; anything else is refused.
   */
  function ParseLink(s: string, mode: RenderMode): Option<Reference> {
    if s == [] || s[0] != '[' || s[|s| - 1] != ')' then None
    else
      match IndexOf(s, ']')
      case None => None
      case Some(i) =>
        if i + 2 <= |s| - 1 && s[i + 1] == '(' && PlainText(s[1..i]) && PlainDestination(s[i + 2..|s| - 1])
        then Some(Reference(s[1..i], s[i + 2..|s| - 1], mode))
        else None
  }

  /** Reads a snippet: a leading '!' makes an image, otherwise a link. */
  function ParseSnippet(s: string): Option<Reference> {
    if s != [] && s[0] == '!' then ParseLink(s[1..], Embed) else ParseLink(s, Link)
  }

  /**
   * With a plain name, the link syntax reads back as the name and the
   * location exactly when the location is a plain destination.
   */
  lemma ParseLinkSyntax(filename: string, location: string, mode: RenderMode)
    requires PlainText(filename)
    ensures ParseLink("[" + filename + "](" + location + ")", mode)
            == if PlainDestination(location) then Some(Reference(filename, location, mode)) else None
  {
    var open := "[" + filename;
    var rest := "](" + location + ")";
    var link := open + rest;
    assert link == "[" + filename + "](" + location + ")";
    assert ']' !in open by {
      forall i | 0 <= i < |open| ensures open[i] != ']' {
        if i > 0 { assert open[i] == filename[i - 1]; }
      }
    }
    IndexOfAfterPrefix(open, rest, ']');
    assert link[1..|open|] == filename;
    assert link[|open| + 2..|link| - 1] == location;
  }

  /**
   * A snippet reads back as what it was made from, the file name as its text,
   * the location as its target and an image exactly for the image types, when
   * the name is plain and the location is a plain destination.
   */
  lemma ParseMakeMarkdown(filename: string, mimeType: string, location: string)
    requires PlainText(filename) && PlainDestination(location)
    ensures ParseSnippet(MakeMarkdown(filename, mimeType, location))
            == Some(Reference(filename, location, Classify(mimeType)))
  {
    SnippetReading(filename, mimeType, location);
  }

  /** With a plain name, the snippet is read as a reference exactly when the location is a plain destination. */
  lemma SnippetReading(filename: string, mimeType: string, location: string)
    requires PlainText(filename)
    ensures ParseSnippet(MakeMarkdown(filename, mimeType, location))
            == if PlainDestination(location) then Some(Reference(filename, location, Classify(mimeType))) else None
  {
    var link := "[" + filename + "](" + location + ")";
    var snippet := MakeMarkdown(filename, mimeType, location);
    ParseLinkSyntax(filename, location, Classify(mimeType));
    if IsImageType(mimeType) {
      BangThenLink(filename, location);
      assert snippet == "!" + link;
      assert snippet[0] == '!' && snippet[1..] == link;
    } else {
      assert snippet == link && snippet[0] == '[';
    }
  }

  /**
   * A location with a space in it, as decodeURIComponent makes of "%20",
   * gives a snippet outside the plain form this reader accepts, so it is not
   * read as an image or a link here.
   */
  lemma SpaceInLocationIsNoReference(filename: string, mimeType: string, location: string)
    requires PlainText(filename) && ' ' in location
    ensures ParseSnippet(MakeMarkdown(filename, mimeType, location)) == None
  {
    SnippetReading(filename, mimeType, location);
  }
}
