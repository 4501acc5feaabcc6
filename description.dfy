/** How the competition service packs a description and a link into the one
    stored `ProjectDescription` column, and how it unpacks them for display. */
module Description {
  import opened Text

  /** The marker whose last occurrence is taken as the start of the link. */
  const Http: string := "http"

  /** The text placed between the description and the link on display. */
  const LinkCaption: string := " The link is: "

  /** A stored description split back into its text and its link. */
  datatype Parts = Parts(description: string, link: string)

  /** A link the split can recover: it starts with "http" and has no later "http". */
  predicate IsLink(l: string)
  {
    IsLastOccurrence(l, Http, 0)
  }

  /** The stored form written by `AddAsync` and `UpdateAsync`:
      description and link joined by one space, then trimmed. */
  function Join(description: string, link: string): (r: string)
    ensures IsTrimmed(r)
  {
    Trim(description + " " + link)
  }

  /** The split done by `GetByIdAsync`: cut at the last "http"; the link is
      the trimmed tail and the description the trimmed head. Without any
      "http" the stored text is kept as it is, untrimmed, and the link is empty. */
  function Split(stored: string): (r: Parts)
    ensures !Contains(stored, Http) ==> r == Parts(stored, "")
    ensures forall i :: IsLastOccurrence(stored, Http, i) ==>
              r == Parts(Trim(stored[..i]), Trim(stored[i..]))
  {
    var idx := LastIndexOf(stored, Http);
    if idx == -1 then Parts(stored, "")
    else
      LastOccurrenceIsUnique(stored, Http, idx);
      Parts(Trim(stored[..idx]), Trim(stored[idx..]))
  }

  /** The display string: always description, caption, link, even when the
      link is empty. */
  function Display(parts: Parts): (r: string)
    ensures |r| == |parts.description| + |LinkCaption| + |parts.link|
    ensures r[..|parts.description|] == parts.description
    ensures r[|parts.description|..|parts.description| + |LinkCaption|] == LinkCaption
    ensures r[|r| - |parts.link|..] == parts.link
  {
    parts.description + LinkCaption + parts.link
  }

  /** The display loses nothing once the length of the description is
      known: two displays that agree, with descriptions of the same length,
      come from the same parts. */
  lemma DisplayDeterminesParts(p: Parts, q: Parts)
    requires Display(p) == Display(q) && |p.description| == |q.description|
    ensures p == q
  {
    var n := |p.description|;
    assert p.description == Display(p)[..n] == Display(q)[..n] == q.description;
    assert p.link == Display(p)[n + |LinkCaption|..] == Display(q)[n + |LinkCaption|..] == q.link;
  }

  /** A trimmed string that starts with "http" and is trimmed again is itself,
      cut after its last non-blank character, and keeps "http" at its head. */
  lemma TrimmedTailKeepsMarker(t: string)
    requires OccursAt(t, Http, 0)
    ensures |Trim(t)| >= |Http| && Trim(t) == t[..|Trim(t)|]
    ensures OccursAt(Trim(t), Http, 0)
  {
    TrimNoLeadingSpace(t);
    var r := TrimEnd(t);
    assert t[0] == 'h' && t[3] == 'p';
    assert r[..4] == t[..4];
  }

  /** What the split yields: the link is empty exactly when there is no
      "http"; otherwise it is a recoverable link and both parts are trimmed. */
  lemma SplitShape(stored: string)
    ensures Split(stored).link == [] <==> !Contains(stored, Http)
    ensures Contains(stored, Http) ==>
              IsLink(Split(stored).link)
              && IsTrimmed(Split(stored).link) && IsTrimmed(Split(stored).description)
  {
    if Contains(stored, Http) {
      var i := LastIndexOf(stored, Http);
      var tail := stored[i..];
      OccursInSuffix(stored, Http, i, 0);
      TrimmedTailKeepsMarker(tail);
      var l := Trim(tail);
      assert Split(stored).link == l;
      forall j | 0 < j <= |l| ensures !OccursAt(l, Http, j) {
        if j + |Http| <= |l| {
          OccursInPrefix(tail, Http, |l|, j);
          OccursInSuffix(stored, Http, i, j);
        }
      }
    }
  }

  /** Joining with an empty description yields the link alone. */
  lemma JoinEmptyDescription(l: string)
    requires IsTrimmed(l) && l != []
    ensures Join("", l) == l
  {
    var s := "" + " " + l;
    assert s[1..] == l;
    assert TrimStart(s) == TrimStart(l) == l;
    TrimFixedPoint(l);
  }

  /** Joining two non-empty trimmed parts needs no trimming. */
  lemma JoinTrimmedParts(d: string, l: string)
    requires IsTrimmed(d) && IsTrimmed(l) && d != [] && l != []
    ensures Join(d, l) == d + " " + l
  {
    var s := d + " " + l;
    assert s[0] == d[0] && s[|s| - 1] == l[|l| - 1];
    TrimFixedPoint(s);
  }

  /** The two pieces on either side of the cut after the joining space. */
  lemma JoinedPieces(d: string, l: string)
    ensures (d + " " + l)[..|d| + 1] == d + " "
    ensures (d + " " + l)[|d| + 1..] == l
  {
  }

  /** A link placed after the cut is the last "http" of the whole string. */
  lemma LinkIsLastOccurrence(d: string, l: string)
    requires IsLink(l)
    ensures IsLastOccurrence(d + " " + l, Http, |d| + 1)
  {
    var s := d + " " + l;
    var n := |d| + 1;
    assert s[n..] == l;
    OccursInSuffix(s, Http, n, 0);
    forall j | n < j <= |s| ensures !OccursAt(s, Http, j) {
      OccursInSuffix(s, Http, n, j - n);
    }
  }

  /** Split cuts at the last "http" it finds. */
  lemma SplitAtLastOccurrence(s: string, n: int)
    requires IsLastOccurrence(s, Http, n)
    ensures Split(s) == Parts(Trim(s[..n]), Trim(s[n..]))
  {
  }

  /** Join then Split gives back a trimmed description and a trimmed link
      that starts with its only "http", even when the description itself
      contains "http". */
  lemma SplitInvertsJoin(d: string, l: string)
    requires IsTrimmed(d) && IsTrimmed(l) && IsLink(l)
    ensures Split(Join(d, l)) == Parts(d, l)
  {
    TrimFixedPoint(l);
    var s := d + " " + l;
    var n := |d| + 1;
    LinkIsLastOccurrence(d, l);
    if d == [] {
      JoinEmptyDescription(l);
      SplitAtLastOccurrence(l, 0);
      assert l[..0] == [] && l[0..] == l;
      TrimFixedPoint([]);
    } else {
      JoinTrimmedParts(d, l);
      SplitAtLastOccurrence(s, n);
      JoinedPieces(d, l);
      TrimTrailingSpace(d);
    }
  }

  /** The exact conditions under which Split inverts Join: both parts
      trimmed, and either the link is a recoverable link, or the link is
      empty and the description has no "http" at all. */
  lemma SplitInvertsJoinExactly(d: string, l: string)
    ensures Split(Join(d, l)) == Parts(d, l) <==>
              IsTrimmed(d) && IsTrimmed(l) && (IsLink(l) || (l == [] && !Contains(d, Http)))
  {
    var s := Join(d, l);
    SplitShape(s);
    if IsTrimmed(d) && IsTrimmed(l) && IsLink(l) {
      SplitInvertsJoin(d, l);
    } else if IsTrimmed(d) && l == [] && !Contains(d, Http) {
      assert d + " " + l == d + " ";
      TrimTrailingSpace(d);
    }
  }

  /** A link with a later "http" loses its head to the description. */
  lemma LaterHttpInLinkIsNotRecovered()
    ensures Split(Join("a", "http://x/http")) != Parts("a", "http://x/http")
  {
    var l := "http://x/http";
    assert l[9..13] == Http;
    assert OccursAt(l, Http, 9);
    SplitInvertsJoinExactly("a", l);
  }

  /** A link without "http" is not recovered. */
  lemma LinkWithoutHttpIsNotRecovered()
    ensures Split(Join("a", "x.com")) != Parts("a", "x.com")
  {
    var l := "x.com";
    assert l[0] != Http[0];
    assert !IsLink(l);
    SplitInvertsJoinExactly("a", l);
  }

  /** A description mentioning "http" before a proper link is recovered intact. */
  lemma HttpInDescriptionIsHarmless()
    ensures Split(Join("see http docs", "http://x")) == Parts("see http docs", "http://x")
  {
    var l := "http://x";
    assert l[..4] == Http;
    SplitInvertsJoin("see http docs", l);
  }
}
