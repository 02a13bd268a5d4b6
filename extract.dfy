/**
 * The fallback endpoint's extractor: the value of the page's
 * `<meta name="description" content="..." />` attribute, cut out verbatim
 * between the first start marker and the first end marker after it.
 */
module Extract {
  import opened Wrappers
  import opened Text

  /** Marker that opens the meta description's attribute value. */
  const MetaStart: string := "<meta name=\"description\" content=\""
  /** Marker that closes it. */
  const MetaEnd: string := "\" />"

  /** No end marker begins at an index in `[from, from + n)` of `html`. */
  predicate NoEndMarkerIn(html: string, from: nat, n: nat) {
    forall k :: from <= k < from + n ==> !OccursAt(html, MetaEnd, k)
  }

  /** `parse_bing_response_fallback`: the text between the first start marker and the first end marker after it. */
  function ParseFallback(html: string): (r: Option<string>)
    ensures (forall p :: !OccursAt(html, MetaStart, p)) ==> r.None?
    ensures r.Some? ==> |MetaStart| + |r.value| + |MetaEnd| <= |html|
  {
    match Find(html, MetaStart)
    case None => None
    case Some(start) =>
      var afterStart := html[start + |MetaStart|..];
      match Find(afterStart, MetaEnd)
      case None => None
      case Some(end) => Some(afterStart[..end])
  }

  /** Without the start marker there is nothing to extract. */
  lemma NoStartMarker(html: string)
    requires forall p :: !OccursAt(html, MetaStart, p)
    ensures ParseFallback(html) == None
  {
  }

  /** With the start marker but no end marker after its first occurrence, there is nothing to extract. */
  lemma NoEndMarker(html: string, p: nat)
    requires FirstAt(html, MetaStart, p)
    requires forall q :: p + |MetaStart| <= q ==> !OccursAt(html, MetaEnd, q)
    ensures ParseFallback(html) == None
  {
    FindFirst(html, MetaStart, p);
    var afterStart := html[p + |MetaStart|..];
    forall q | 0 <= q ensures !OccursAt(afterStart, MetaEnd, q) {
      if q + |MetaEnd| <= |afterStart| {
        assert afterStart[q..q + |MetaEnd|] == html[p + |MetaStart| + q..p + |MetaStart| + q + |MetaEnd|];
        assert !OccursAt(html, MetaEnd, p + |MetaStart| + q);
      }
    }
  }

  /** A start marker with an end marker somewhere after its first occurrence gives a result. */
  lemma EndMarkerGivesResult(html: string, p: nat, q: nat)
    requires FirstAt(html, MetaStart, p)
    requires p + |MetaStart| <= q && OccursAt(html, MetaEnd, q)
    ensures ParseFallback(html).Some?
  {
    FindFirst(html, MetaStart, p);
    ShiftedOccurrence(html, p + |MetaStart|, q - p - |MetaStart|);
    assert OccursAt(html[p + |MetaStart|..], MetaEnd, q - p - |MetaStart|);
  }

  /** An end marker in the text after the start marker is an end marker of the page, shifted. */
  lemma ShiftedOccurrence(html: string, a: nat, q: nat)
    requires a <= |html|
    ensures OccursAt(html[a..], MetaEnd, q) <==> OccursAt(html, MetaEnd, a + q)
  {
    if q + |MetaEnd| <= |html| - a {
      assert html[a..][q..q + |MetaEnd|] == html[a + q..a + q + |MetaEnd|];
    }
  }

  /** Start marker, `r` and end marker standing one after another from `p` is an occurrence of their concatenation. */
  lemma FramedAt(html: string, p: nat, r: string)
    requires p + |MetaStart| + |r| + |MetaEnd| <= |html|
    requires html[p..p + |MetaStart|] == MetaStart
    requires html[p + |MetaStart|..p + |MetaStart| + |r|] == r
    requires html[p + |MetaStart| + |r|..p + |MetaStart| + |r| + |MetaEnd|] == MetaEnd
    ensures OccursAt(html, MetaStart + r + MetaEnd, p)
  {
    var a := p + |MetaStart|;
    var b := a + |r|;
    assert html[p..b + |MetaEnd|] == html[p..a] + html[a..b] + html[b..b + |MetaEnd|];
  }

  /** A result stands between the markers at the first start marker, with no end marker inside. */
  lemma ExtractedSound(html: string, p: nat, r: string)
    requires FirstAt(html, MetaStart, p)
    requires ParseFallback(html) == Some(r)
    ensures OccursAt(html, MetaStart + r + MetaEnd, p)
    ensures NoEndMarkerIn(html, p + |MetaStart|, |r|)
  {
    FindFirst(html, MetaStart, p);
    var a := p + |MetaStart|;
    var afterStart := html[a..];
    assert Find(afterStart, MetaEnd).Some?;
    var e := Find(afterStart, MetaEnd).value;
    assert r == afterStart[..e];
    forall k | a <= k < a + e ensures !OccursAt(html, MetaEnd, k) {
      assert !OccursAt(afterStart, MetaEnd, k - a);
      ShiftedOccurrence(html, a, k - a);
    }
    assert html[a..a + e] == afterStart[..e];
    assert html[a + e..a + e + |MetaEnd|] == afterStart[e..e + |MetaEnd|];
    FramedAt(html, p, r);
  }

  /** An occurrence of start marker + `r` + end marker at `p` puts each piece at its place. */
  lemma Unframe(html: string, p: nat, r: string)
    requires OccursAt(html, MetaStart + r + MetaEnd, p)
    ensures html[p + |MetaStart|..p + |MetaStart| + |r|] == r
    ensures html[p + |MetaStart| + |r|..p + |MetaStart| + |r| + |MetaEnd|] == MetaEnd
  {
    var a := p + |MetaStart|;
    var whole := html[p..p + |MetaStart + r + MetaEnd|];
    assert whole == MetaStart + r + MetaEnd;
    forall k | 0 <= k < |r| ensures html[a + k] == r[k] {
      assert html[a + k] == whole[|MetaStart| + k];
    }
    forall k | 0 <= k < |MetaEnd| ensures html[a + |r| + k] == MetaEnd[k] {
      assert html[a + |r| + k] == whole[|MetaStart| + |r| + k];
    }
  }

  /** Markers framing `r` at the first start marker, with no end marker inside, give `Some(r)`. */
  lemma ExtractedComplete(html: string, p: nat, r: string)
    requires FirstAt(html, MetaStart, p)
    requires OccursAt(html, MetaStart + r + MetaEnd, p)
    requires NoEndMarkerIn(html, p + |MetaStart|, |r|)
    ensures ParseFallback(html) == Some(r)
  {
    FindFirst(html, MetaStart, p);
    var a := p + |MetaStart|;
    var afterStart := html[a..];
    Unframe(html, p, r);
    assert afterStart[..|r|] == r by {
      forall k | 0 <= k < |r| ensures afterStart[k] == r[k] {
        assert html[a..a + |r|][k] == r[k];
      }
    }
    assert afterStart[|r|..|r| + |MetaEnd|] == MetaEnd by {
      forall k | 0 <= k < |MetaEnd| ensures afterStart[|r| + k] == MetaEnd[k] {
        assert html[a + |r|..a + |r| + |MetaEnd|][k] == MetaEnd[k];
      }
    }
    forall j | 0 <= j < |r| ensures !OccursAt(afterStart, MetaEnd, j) {
      assert !OccursAt(html, MetaEnd, a + j);
      ShiftedOccurrence(html, a, j);
    }
    FindFirst(afterStart, MetaEnd, |r|);
    assert ParseFallback(html) == Some(afterStart[..|r|]);
  }

  /**
   * The exact characterisation of a successful extraction: with the first
   * start marker at `p`, the result is `r` exactly when `MetaStart + r + MetaEnd`
   * stands at `p` in `html` and no end marker begins inside `r`.
   */
  lemma ExtractedIff(html: string, p: nat, r: string)
    requires FirstAt(html, MetaStart, p)
    ensures ParseFallback(html) == Some(r) <==>
      (OccursAt(html, MetaStart + r + MetaEnd, p) && NoEndMarkerIn(html, p + |MetaStart|, |r|))
  {
    if ParseFallback(html) == Some(r) {
      ExtractedSound(html, p, r);
    }
    if OccursAt(html, MetaStart + r + MetaEnd, p) && NoEndMarkerIn(html, p + |MetaStart|, |r|) {
      ExtractedComplete(html, p, r);
    }
  }

  /** A successful extraction is framed by the markers at the first start marker. */
  lemma ExtractedIsFramed(html: string, r: string)
    requires ParseFallback(html) == Some(r)
    ensures exists p: nat :: FirstAt(html, MetaStart, p) && OccursAt(html, MetaStart + r + MetaEnd, p)
  {
    var p := Find(html, MetaStart).value;
    ExtractedIff(html, p, r);
  }

  /** The first end marker after the start was used, so the result holds no end marker. */
  lemma {:induction false} NoEndMarkerInside(html: string, r: string)
    requires ParseFallback(html) == Some(r)
    ensures forall q :: !OccursAt(r, MetaEnd, q)
  {
    var p := Find(html, MetaStart).value;
    ExtractedSound(html, p, r);
    Unframe(html, p, r);
    var a := p + |MetaStart|;
    forall q | 0 <= q ensures !OccursAt(r, MetaEnd, q) {
      if q + |MetaEnd| <= |r| {
        assert r[q..q + |MetaEnd|] == html[a + q..a + q + |MetaEnd|] by {
          forall j | q <= j < q + |MetaEnd| ensures r[j] == html[a + j] {
            assert html[a..a + |r|][j] == r[j];
          }
        }
        assert !OccursAt(html, MetaEnd, a + q);
      }
    }
  }

  /** A page whose description is "hello" yields "hello". */
  lemma DescriptionExample()
    ensures ParseFallback(MetaStart + "hello" + MetaEnd + "</head>") == Some("hello")
  {
    var html := MetaStart + "hello" + MetaEnd + "</head>";
    assert html[..|MetaStart + "hello" + MetaEnd|] == MetaStart + "hello" + MetaEnd;
    forall k | |MetaStart| <= k < |MetaStart| + 5 ensures !OccursAt(html, MetaEnd, k) {
      assert html[k] == "hello"[k - |MetaStart|] != '"';
      assert html[k..k + |MetaEnd|][0] == html[k];
    }
    ExtractedIff(html, 0, "hello");
  }
}
