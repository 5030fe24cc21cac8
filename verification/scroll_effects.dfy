/** The two scroll-driven decisions of script.js: whether the scroll-to-top
    button is visible, and which navigation link is marked active. Scroll
    offsets and section tops are whole pixels here. */
module ScrollEffects {
  import opened Optional

  /** Offset past which the scroll-to-top button shows. */
  const ScrollToTopThreshold: int := 300

  /** How far above its top a section already counts as reached. */
  const SectionLead: int := 100

  /** `handleScrollToTop`: visible strictly past 300 pixels. */
  predicate ScrollToTopVisible(offset: int)
  {
    offset > ScrollToTopThreshold
  }

  /** The button shows exactly on the offsets past the threshold, and once
      shown it stays shown on every further offset. */
  lemma ScrollToTopBoundary(offset: int, further: int)
    requires offset <= further
    ensures ScrollToTopVisible(offset) ==> ScrollToTopVisible(further)
    ensures !ScrollToTopVisible(300) && ScrollToTopVisible(301)
  {
  }

  /** A page section: its `offsetTop` and its `id` attribute (absent ids
      read as `null`). `clientHeight` is read by the source but never used. */
  datatype Section = Section(top: int, id: Option<string>)

  /** The test of `updateActiveNav` for one section. */
  predicate Reached(offset: int, s: Section)
  {
    offset >= s.top - SectionLead
  }

  /** The index of the last section, in document order, that the offset has
      reached, or `None` when it has reached none. */
  function LastReached(offset: int, sections: seq<Section>): (r: Option<nat>)
    ensures r.Some? ==> r.value < |sections| && Reached(offset, sections[r.value])
    ensures r.Some? ==> forall j :: r.value < j < |sections| ==> !Reached(offset, sections[j])
    ensures r.None? <==> forall j :: 0 <= j < |sections| ==> !Reached(offset, sections[j])
    decreases |sections|
  {
    if |sections| == 0 then None
    else if Reached(offset, sections[|sections| - 1]) then Some(|sections| - 1)
    else LastReached(offset, sections[..|sections| - 1])
  }

  /** How a template literal prints an attribute value: `null` for none. */
  function AttributeText(a: Option<string>): string
  {
    match a
    case Some(s) => s
    case None => "null"
  }

  /** The `current` name of `updateActiveNav` in terms of `LastReached`. */
  function CurrentName(offset: int, sections: seq<Section>): string
  {
    match LastReached(offset, sections)
    case None => ""
    case Some(i) => AttributeText(sections[i].id)
  }

  /** The first pass of `updateActiveNav`, as the source does it: walk the
      sections in order and let every reached one overwrite `current`. */
  method FindCurrent(offset: int, sections: seq<Section>) returns (current: string)
    ensures current == CurrentName(offset, sections)
    ensures (forall j :: 0 <= j < |sections| ==> !Reached(offset, sections[j])) ==> current == ""
  {
    current := "";
    var i := 0;
    while i < |sections|
      invariant 0 <= i <= |sections|
      invariant current == CurrentName(offset, sections[..i])
    {
      assert sections[..i + 1][..i] == sections[..i];
      if Reached(offset, sections[i]) {
        current := AttributeText(sections[i].id);
      }
      i := i + 1;
    }
    assert sections[..i] == sections;
  }

  /** The second pass of `updateActiveNav`: every link is cleared, then the
      ones whose `href` is `'#' + current` are marked. A link without `href`
      is never marked. */
  method MarkLinks(hrefs: seq<Option<string>>, current: string) returns (active: seq<bool>)
    ensures |active| == |hrefs|
    ensures forall i :: 0 <= i < |hrefs| ==> (active[i] <==> hrefs[i] == Some("#" + current))
  {
    active := [];
    var i := 0;
    while i < |hrefs|
      invariant 0 <= i <= |hrefs|
      invariant |active| == i
      invariant forall k :: 0 <= k < i ==> (active[k] <==> hrefs[k] == Some("#" + current))
    {
      active := active + [hrefs[i] == Some("#" + current)];
      i := i + 1;
    }
  }

  /** `updateActiveNav` as a whole. */
  method UpdateActiveNav(offset: int, sections: seq<Section>, hrefs: seq<Option<string>>)
    returns (active: seq<bool>)
    ensures |active| == |hrefs|
    ensures forall i :: 0 <= i < |hrefs| ==>
      (active[i] <==> hrefs[i] == Some("#" + CurrentName(offset, sections)))
    ensures (forall a, b :: 0 <= a < b < |hrefs| ==> hrefs[a] != hrefs[b]) ==>
      forall i, j :: 0 <= i < |active| && 0 <= j < |active| && active[i] && active[j] ==> i == j
  {
    var current := FindCurrent(offset, sections);
    active := MarkLinks(hrefs, current);
    if forall a, b :: 0 <= a < b < |hrefs| ==> hrefs[a] != hrefs[b] {
      AtMostOneActive(current, hrefs);
    }
  }

  /** Scrolling further down never moves the current section back up. */
  lemma CurrentIsMonotone(offset: int, further: int, sections: seq<Section>)
    requires offset <= further
    requires LastReached(offset, sections).Some?
    ensures LastReached(further, sections).Some?
    ensures LastReached(further, sections).value >= LastReached(offset, sections).value
  {
    var i := LastReached(offset, sections).value;
    assert Reached(further, sections[i]);
  }

  /** Section tops in ascending order, as on a laid-out page. */
  predicate TopsAscending(sections: seq<Section>)
  {
    forall i, j :: 0 <= i < j < |sections| ==> sections[i].top <= sections[j].top
  }

  /** With ascending tops the current section is the one whose band
      `[top - 100, next top - 100)` holds the offset. */
  lemma CurrentIsBandOfOffset(offset: int, sections: seq<Section>, i: nat)
    requires TopsAscending(sections)
    requires i < |sections|
    ensures LastReached(offset, sections) == Some(i) <==>
      Reached(offset, sections[i]) && (i + 1 == |sections| || !Reached(offset, sections[i + 1]))
  {
    if Reached(offset, sections[i]) && (i + 1 == |sections| || !Reached(offset, sections[i + 1])) {
      forall j | i < j < |sections|
        ensures !Reached(offset, sections[j])
      {
        assert sections[i + 1].top <= sections[j].top;
      }
      var r := LastReached(offset, sections);
      assert r.Some?;
      assert r.value == i;
    }
  }

  /** Before any section is reached only the links whose `href` is exactly
      `#` are marked. */
  lemma NoSectionMarksBareHash(offset: int, sections: seq<Section>, hrefs: seq<Option<string>>, i: nat)
    requires forall j :: 0 <= j < |sections| ==> !Reached(offset, sections[j])
    requires i < |hrefs|
    ensures hrefs[i] == Some("#" + CurrentName(offset, sections)) <==> hrefs[i] == Some("#")
  {
    assert "#" + "" == "#";
  }

  /** A current section without `id` makes `current` the text `null`, so a
      link to `#null` would be marked. */
  lemma MissingIdReadsNull(offset: int, sections: seq<Section>, i: nat)
    requires LastReached(offset, sections) == Some(i)
    requires i < |sections| && sections[i].id.None?
    ensures CurrentName(offset, sections) == "null"
  {
  }

  /** When hrefs are pairwise distinct, at most one link is marked. */
  lemma AtMostOneActive(current: string, hrefs: seq<Option<string>>)
    requires forall a, b :: 0 <= a < b < |hrefs| ==> hrefs[a] != hrefs[b]
    ensures forall i, j ::
      (0 <= i < |hrefs| && 0 <= j < |hrefs| &&
       hrefs[i] == Some("#" + current) && hrefs[j] == Some("#" + current)) ==> i == j
  {
  }
}
