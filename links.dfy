/** The candidate product links of one search-results page: filtered, made
    absolute and de-duplicated in first-seen order. */
module Links {
  import opened Wrappers
  import opened Text
  import opened Dom
  import Extract

  const PRODUCT_MARKER := "/products/"

  /** One anchor's `href`, kept when it names a product path; an href that
      starts with "/" (including a protocol-relative "//") is prefixed with
      the storefront's origin. */
  function ResolveLink(href: Option<string>): (r: Option<string>)
    ensures r.Some? <==> href.Some? && Contains(href.value, PRODUCT_MARKER)
    ensures r.Some? ==> Contains(r.value, PRODUCT_MARKER) && EndsWith(r.value, href.value)
    ensures r.Some? && StartsWith(href.value, "/") ==> r.value == Extract.ORIGIN + href.value
    ensures r.Some? && !StartsWith(href.value, "/") ==> r.value == href.value
  {
    if href.Some? && href.value != "" && Contains(href.value, PRODUCT_MARKER) then
      if StartsWith(href.value, "/") then
        ContainsAppend(Extract.ORIGIN, href.value, PRODUCT_MARKER);
        Some(Extract.ORIGIN + href.value)
      else Some(href.value)
    else None
  }

  function OptionToSeq(o: Option<string>): seq<string> {
    if o.Some? then [o.value] else []
  }

  /** The kept, resolved hrefs of the anchors, in document order, duplicates
      included; `Raised` when reading some href raises. */
  function ResolvedHrefs(anchors: seq<Attribute>): (r: Try<seq<string>>)
    ensures r.Ok? ==> |r.value| <= |anchors|
  {
    if anchors == [] then Ok([])
    else
      match ResolvedHrefs(anchors[..|anchors| - 1])
      case Raised => Raised
      case Ok(hs) =>
        match anchors[|anchors| - 1]
        case Raised => Raised
        case Ok(href) => Ok(hs + OptionToSeq(ResolveLink(href)))
  }

  /** An href read that raises makes the whole candidate list raise. */
  lemma {:induction false} ResolvedHrefsRaised(anchors: seq<Attribute>, k: nat)
    requires k <= |anchors| && ResolvedHrefs(anchors[..k]).Raised?
    ensures ResolvedHrefs(anchors).Raised?
    decreases |anchors| - k
  {
    if k < |anchors| {
      assert anchors[..k + 1][..k] == anchors[..k];
      ResolvedHrefsRaised(anchors, k + 1);
    } else {
      assert anchors[..k] == anchors;
    }
  }

  /** Every kept href names a product path. */
  lemma {:induction false} ResolvedHrefsAreProducts(anchors: seq<Attribute>)
    requires ResolvedHrefs(anchors).Ok?
    ensures forall h :: h in ResolvedHrefs(anchors).value ==> Contains(h, PRODUCT_MARKER)
  {
    if anchors != [] {
      ResolvedHrefsAreProducts(anchors[..|anchors| - 1]);
    }
  }

  /** Reading the hrefs succeeds exactly when no single read raises. */
  lemma {:induction false} ResolvedHrefsOk(anchors: seq<Attribute>)
    ensures ResolvedHrefs(anchors).Ok? <==> forall i :: 0 <= i < |anchors| ==> anchors[i].Ok?
  {
    if anchors != [] {
      var init := anchors[..|anchors| - 1];
      ResolvedHrefsOk(init);
      assert forall i :: 0 <= i < |init| ==> init[i] == anchors[i];
    }
  }

  /** The kept hrefs are exactly the resolved hrefs of the anchors that name
      a product path: nothing else is kept and none of those is dropped. */
  lemma ResolvedHrefsMembers(anchors: seq<Attribute>)
    requires ResolvedHrefs(anchors).Ok?
    ensures forall h :: h in ResolvedHrefs(anchors).value <==>
      exists i :: 0 <= i < |anchors| && anchors[i].Ok? && ResolveLink(anchors[i].value) == Some(h)
  {
    ResolvedHrefsSound(anchors);
    ResolvedHrefsComplete(anchors);
  }

  /** Every kept href is the resolved link of some anchor. */
  lemma {:induction false} ResolvedHrefsSound(anchors: seq<Attribute>)
    requires ResolvedHrefs(anchors).Ok?
    ensures forall h :: h in ResolvedHrefs(anchors).value ==>
      exists i :: 0 <= i < |anchors| && anchors[i].Ok? && ResolveLink(anchors[i].value) == Some(h)
  {
    if anchors != [] {
      var init := anchors[..|anchors| - 1];
      ResolvedHrefsSound(init);
      var hs := ResolvedHrefs(init).value;
      forall h | h in ResolvedHrefs(anchors).value
        ensures exists i :: 0 <= i < |anchors| && anchors[i].Ok? && ResolveLink(anchors[i].value) == Some(h)
      {
        if h in hs {
          var i :| 0 <= i < |init| && init[i].Ok? && ResolveLink(init[i].value) == Some(h);
          assert anchors[i] == init[i];
        } else {
          assert ResolveLink(anchors[|anchors| - 1].value) == Some(h);
        }
      }
    }
  }

  /** Every anchor whose href resolves has its link kept. */
  lemma {:induction false} ResolvedHrefsComplete(anchors: seq<Attribute>)
    requires ResolvedHrefs(anchors).Ok?
    ensures forall i :: 0 <= i < |anchors| && anchors[i].Ok? && ResolveLink(anchors[i].value).Some? ==>
      ResolveLink(anchors[i].value).value in ResolvedHrefs(anchors).value
  {
    if anchors != [] {
      var init := anchors[..|anchors| - 1];
      ResolvedHrefsComplete(init);
      var hs := ResolvedHrefs(init).value;
      assert ResolvedHrefs(anchors).value == hs + OptionToSeq(ResolveLink(anchors[|anchors| - 1].value));
      forall i | 0 <= i < |init| && anchors[i].Ok? && ResolveLink(anchors[i].value).Some?
        ensures ResolveLink(anchors[i].value).value in hs
      {
        assert anchors[i] == init[i];
      }
    }
  }

  predicate NoDuplicates(s: seq<string>) {
    forall i, j :: 0 <= i < j < |s| ==> s[i] != s[j]
  }

  /** s without repeats, each kept at its first occurrence. */
  function Dedup(s: seq<string>): (r: seq<string>)
    ensures NoDuplicates(r) && |r| <= |s|
    ensures forall x :: x in r <==> x in s
  {
    if s == [] then []
    else
      var d := Dedup(s[..|s| - 1]);
      assert s == s[..|s| - 1] + [s[|s| - 1]];
      if s[|s| - 1] in d then d else d + [s[|s| - 1]]
  }

  /** The position of the first occurrence of x in s. */
  function FirstIndex(s: seq<string>, x: string): (i: nat)
    requires x in s
    ensures i < |s| && s[i] == x && x !in s[..i]
  {
    if s[0] == x then 0 else 1 + FirstIndex(s[1..], x)
  }

  lemma FirstIndexPrefix(s: seq<string>, y: string, x: string)
    requires x in s
    ensures FirstIndex(s + [y], x) == FirstIndex(s, x)
  {
    var i := FirstIndex(s, x);
    var j := FirstIndex(s + [y], x);
    assert (s + [y])[..i] == s[..i];
    assert (s + [y])[i] == x;
  }

  /** De-duplication keeps first-seen order: of two kept links, the earlier
      one was seen first. */
  lemma {:induction false} DedupFirstSeenOrder(s: seq<string>, i: nat, j: nat)
    requires i < j < |Dedup(s)|
    ensures FirstIndex(s, Dedup(s)[i]) < FirstIndex(s, Dedup(s)[j])
  {
    var init := s[..|s| - 1];
    var last := s[|s| - 1];
    var d := Dedup(init);
    assert s == init + [last];
    if last in d {
      DedupFirstSeenOrder(init, i, j);
      FirstIndexPrefix(init, last, d[i]);
      FirstIndexPrefix(init, last, d[j]);
    } else if j < |d| {
      DedupFirstSeenOrder(init, i, j);
      FirstIndexPrefix(init, last, d[i]);
      FirstIndexPrefix(init, last, d[j]);
    } else {
      FirstIndexPrefix(init, last, d[i]);
      assert last !in init;
      assert FirstIndex(s, last) == |init|;
    }
  }

  /** Appending one link to the input appends it to the output unless it was
      already seen. */
  lemma DedupSnoc(s: seq<string>, x: string)
    ensures Dedup(s + [x]) == if x in Dedup(s) then Dedup(s) else Dedup(s) + [x]
  {
    assert (s + [x])[..|s|] == s;
  }

  /** A list that has no repeats is left as it is. */
  lemma {:induction false} DedupDistinct(s: seq<string>)
    requires NoDuplicates(s)
    ensures Dedup(s) == s
  {
    if s != [] {
      var init := s[..|s| - 1];
      DedupDistinct(init);
      assert s[|s| - 1] !in init;
      assert s == init + [s[|s| - 1]];
    }
  }

  /** The candidate product URLs of a search-results page. */
  function CandidateLinks(anchors: seq<Attribute>): (r: Try<seq<string>>)
    ensures r.Ok? <==> ResolvedHrefs(anchors).Ok?
    ensures r.Ok? ==> NoDuplicates(r.value) && |r.value| <= |anchors|
  {
    match ResolvedHrefs(anchors)
    case Raised => Raised
    case Ok(hs) => Ok(Dedup(hs))
  }

  /** The candidate list: raised exactly when an href read raises; otherwise
      free of repeats, holding exactly the resolved product links of the
      anchors. */
  lemma CandidateLinksSpec(anchors: seq<Attribute>)
    ensures CandidateLinks(anchors).Ok? <==> forall i :: 0 <= i < |anchors| ==> anchors[i].Ok?
    ensures CandidateLinks(anchors).Ok? ==>
      NoDuplicates(CandidateLinks(anchors).value)
      && forall h :: h in CandidateLinks(anchors).value <==>
        exists i :: 0 <= i < |anchors| && anchors[i].Ok? && ResolveLink(anchors[i].value) == Some(h)
  {
    ResolvedHrefsOk(anchors);
    if ResolvedHrefs(anchors).Ok? {
      ResolvedHrefsMembers(anchors);
    }
  }

  /** Reading one more href extends the kept hrefs by its resolved link. */
  lemma ResolvedHrefsStep(anchors: seq<Attribute>, k: nat)
    requires k < |anchors| && ResolvedHrefs(anchors[..k]).Ok? && anchors[k].Ok?
    ensures ResolvedHrefs(anchors[..k + 1]) ==
      Ok(ResolvedHrefs(anchors[..k]).value + OptionToSeq(ResolveLink(anchors[k].value)))
  {
    assert anchors[..k + 1][..k] == anchors[..k];
  }

  /** The link-collecting loop: reads each anchor's href in document order,
      keeps product links, makes them absolute, and appends each one not yet
      in `seen`. */
  method CollectHrefs(anchors: seq<Attribute>) returns (r: Try<seq<string>>)
    ensures r == CandidateLinks(anchors)
  {
    var hrefs: seq<string> := [];
    var seen: set<string> := {};
    for k := 0 to |anchors|
      invariant ResolvedHrefs(anchors[..k]).Ok?
      invariant hrefs == Dedup(ResolvedHrefs(anchors[..k]).value)
      invariant forall x :: x in seen <==> x in hrefs
    {
      match anchors[k]
      case Raised =>
        ResolvedHrefsRaised(anchors, k + 1);
        return Raised;
      case Ok(href) =>
        ghost var before := ResolvedHrefs(anchors[..k]).value;
        ResolvedHrefsStep(anchors, k);
        var link := ResolveLink(href);
        if link.Some? {
          DedupSnoc(before, link.value);
          if link.value !in seen {
            seen := seen + {link.value};
            hrefs := hrefs + [link.value];
          }
        } else {
          assert before + OptionToSeq(link) == before;
        }
    }
    assert anchors[..|anchors|] == anchors;
    r := Ok(hrefs);
  }
}
