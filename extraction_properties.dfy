/** Properties of the extraction walk: the preference rule for multipart/alternative, the
    attachment quota, and what every extracted part satisfies. */
module ExtractionProperties {
  import opened Wrappers
  import opened Strings
  import opened Seqs
  import opened Mime
  import opened Configuration
  import opened Extraction

  // ---------------------------------------------------------------------------------------
  // The preference rule

  /** FirstPreferred picks the earliest preferred type that some child holds, and finds
      none exactly when no preferred type is held by any child. */
  lemma {:induction false} FirstPreferredIsFirst(prefs: seq<string>, lists: seq<seq<MailPartData>>)
    ensures FirstPreferred(prefs, lists).Some? ==>
      exists k :: 0 <= k < |prefs| && prefs[k] == FirstPreferred(prefs, lists).value &&
                  AnyHasPreferred(lists, prefs[k]) &&
                  forall j :: 0 <= j < k ==> !AnyHasPreferred(lists, prefs[j])
    ensures FirstPreferred(prefs, lists).None? <==> forall k :: 0 <= k < |prefs| ==> !AnyHasPreferred(lists, prefs[k])
  {
    if prefs != [] {
      FirstPreferredIsFirst(prefs[1..], lists);
      if !AnyHasPreferred(lists, prefs[0]) && FirstPreferred(prefs, lists).Some? {
        var k :| 0 <= k < |prefs[1..]| && prefs[1..][k] == FirstPreferred(prefs, lists).value &&
                 AnyHasPreferred(lists, prefs[1..][k]) &&
                 forall j :: 0 <= j < k ==> !AnyHasPreferred(lists, prefs[1..][j]);
        assert prefs[k + 1] == prefs[1..][k];
        forall j | 0 <= j < k + 1 ensures !AnyHasPreferred(lists, prefs[j]) {
          if j > 0 { assert prefs[j] == prefs[1..][j - 1]; }
        }
      }
      if FirstPreferred(prefs, lists).None? {
        forall k | 0 <= k < |prefs| ensures !AnyHasPreferred(lists, prefs[k]) {
          if k > 0 { assert prefs[k] == prefs[1..][k - 1]; }
        }
      }
    }
  }

  /** Scanning the preferred types in two runs: the first run decides if it finds one. */
  lemma {:induction false} FirstPreferredAppend(a: seq<string>, b: seq<string>, lists: seq<seq<MailPartData>>)
    ensures FirstPreferred(a + b, lists) ==
      if FirstPreferred(a, lists).Some? then FirstPreferred(a, lists) else FirstPreferred(b, lists)
  {
    if a == [] {
      assert a + b == b;
    } else {
      assert (a + b)[0] == a[0] && (a + b)[1..] == a[1..] + b;
      FirstPreferredAppend(a[1..], b, lists);
    }
  }

  /** A part is kept by the preference rule exactly when it sits in the list of a child
      that holds the selected type; such a child's list is kept whole, siblings of the
      matching part included. */
  lemma {:induction false} SelectedMembership(t: string, lists: seq<seq<MailPartData>>, x: MailPartData)
    ensures x in Selected(t, lists) <==> exists i :: 0 <= i < |lists| && HasPreferred(lists[i], t) && x in lists[i]
  {
    if lists != [] {
      var init := lists[..|lists| - 1];
      SelectedMembership(t, init, x);
      if x in Selected(t, lists) && !(HasPreferred(lists[|lists| - 1], t) && x in lists[|lists| - 1]) {
        var i :| 0 <= i < |init| && HasPreferred(init[i], t) && x in init[i];
        assert lists[i] == init[i];
      }
      if exists i :: 0 <= i < |lists| && HasPreferred(lists[i], t) && x in lists[i] {
        var i :| 0 <= i < |lists| && HasPreferred(lists[i], t) && x in lists[i];
        if i < |lists| - 1 { assert init[i] == lists[i]; }
      }
    }
  }

  /** The preference rule of MessageParser.extractMultiPart: a multipart/alternative whose
      children hold a preferred type yields the whole lists of the children holding the
      first such type; any other multipart, or an alternative with no preferred type,
      yields every child's list in order. */
  lemma CombineRule(prefs: seq<string>, contentType: string, lists: seq<seq<MailPartData>>)
    ensures !IsAlternative(contentType) ==> Combine(prefs, contentType, lists) == Concat(lists)
    ensures (forall k :: 0 <= k < |prefs| ==> !AnyHasPreferred(lists, prefs[k])) ==>
      Combine(prefs, contentType, lists) == Concat(lists)
    ensures forall k :: 0 <= k < |prefs| && IsAlternative(contentType) && AnyHasPreferred(lists, prefs[k]) &&
                        (forall j :: 0 <= j < k ==> !AnyHasPreferred(lists, prefs[j])) ==>
      Combine(prefs, contentType, lists) == Selected(prefs[k], lists)
  {
    FirstPreferredIsFirst(prefs, lists);
    forall k | 0 <= k < |prefs| && IsAlternative(contentType) && AnyHasPreferred(lists, prefs[k]) &&
               (forall j :: 0 <= j < k ==> !AnyHasPreferred(lists, prefs[j]))
      ensures Combine(prefs, contentType, lists) == Selected(prefs[k], lists)
    {
      var k' :| 0 <= k' < |prefs| && prefs[k'] == FirstPreferred(prefs, lists).value &&
                AnyHasPreferred(lists, prefs[k']) && forall j :: 0 <= j < k' ==> !AnyHasPreferred(lists, prefs[j]);
      assert k' == k;
    }
  }

  /** The body of the example mail of MessageParserTest: a multipart/related whose first
      child is a multipart/alternative (plain text, then html) and whose second child is
      the inline logo. Which alternative holds which preferred type. */
  lemma ExampleAlternatives(html: string, text: string)
    ensures var lists := [[Content("text/plain", text)], [Content("text/html", html)]];
      && HasPreferred(lists[1], "text/html") && !HasPreferred(lists[0], "text/html")
      && HasPreferred(lists[0], "text/plain") && !HasPreferred(lists[1], "text/plain")
      && AnyHasPreferred(lists, "text/html") && AnyHasPreferred(lists, "text/plain")
      && Selected("text/html", lists) == lists[1]
      && Selected("text/plain", lists) == lists[0]
  {
    var lists: seq<seq<MailPartData>> := [[Content("text/plain", text)], [Content("text/html", html)]];
    var plainType := ToLower(lists[0][0].contentType);
    var htmlType := ToLower(lists[1][0].contentType);
    assert plainType == "text/plain";
    assert htmlType == "text/html";
    assert plainType[5] == 'p' && htmlType[5] == 'h';
    assert IsPrefix("text/html", htmlType);
    assert IsPrefix("text/plain", plainType);
    assert HasPreferred(lists[1], "text/html");
    assert HasPreferred(lists[0], "text/plain");
    assert !HasPreferred(lists[0], "text/html");
    assert !HasPreferred(lists[1], "text/plain");
    assert lists[..1] == [lists[0]];
    assert lists[..1][..0] == [];
    assert Selected("text/html", lists[..1]) == [];
    assert Selected("text/plain", lists[..1]) == lists[0];
  }

  /** The related part keeps the chosen alternative and the logo after it. */
  lemma RelatedJoin(prefs: seq<string>, related: string, chosen: MailPartData, logo: MailPartData)
    requires !IsAlternative(related)
    ensures Combine(prefs, related, [[chosen], [logo]]) == [chosen, logo]
  {
    var lists: seq<seq<MailPartData>> := [[chosen], [logo]];
    assert lists[..1] == [[chosen]];
    assert lists[..1][..0] == [];
    assert Concat(lists[..1][..0]) == [];
    assert Concat(lists[..1]) == [chosen];
    assert Concat(lists) == [chosen] + [logo];
  }

  /** MessageParserTest, defaults: the html alternative is chosen and the logo kept, two
      parts in all. */
  lemma DefaultOrderPrefersHtml(related: string, alternative: string, html: string, text: string, logo: MailPartData)
    requires IsAlternative(alternative) && !IsAlternative(related)
    ensures var body := [[Content("text/plain", text)], [Content("text/html", html)]];
      var prefs := DefaultPreferredContentTypes;
      Combine(prefs, related, [Combine(prefs, alternative, body), [logo]]) == [Content("text/html", html), logo]
  {
    ExampleAlternatives(html, text);
    var body: seq<seq<MailPartData>> := [[Content("text/plain", text)], [Content("text/html", html)]];
    assert Combine(DefaultPreferredContentTypes, alternative, body) == [Content("text/html", html)];
    RelatedJoin(DefaultPreferredContentTypes, related, Content("text/html", html), logo);
  }

  /** MessageParserTest, text/plain listed first: the plain text alternative is chosen
      and the logo kept, two parts in all. */
  lemma PlainFirstPrefersText(related: string, alternative: string, html: string, text: string, logo: MailPartData)
    requires IsAlternative(alternative) && !IsAlternative(related)
    ensures var body := [[Content("text/plain", text)], [Content("text/html", html)]];
      var prefs := ["text/plain", "text/html"];
      Combine(prefs, related, [Combine(prefs, alternative, body), [logo]]) == [Content("text/plain", text), logo]
  {
    ExampleAlternatives(html, text);
    var body: seq<seq<MailPartData>> := [[Content("text/plain", text)], [Content("text/html", html)]];
    assert Combine(["text/plain", "text/html"], alternative, body) == [Content("text/plain", text)];
    RelatedJoin(["text/plain", "text/html"], related, Content("text/plain", text), logo);
  }

  /** A multipart/mixed keeps every child's parts whatever the preference order. */
  lemma MixedKeepsEverything(html: string, text: string, logo: MailPartData)
    ensures var lists := [[Content("text/plain", text)], [Content("text/html", html), logo]];
      Combine(DefaultPreferredContentTypes, "multipart/mixed", lists) == [Content("text/plain", text), Content("text/html", html), logo]
  {
    assert ToLower("multipart/mixed")[10] == 'm';
    var lists: seq<seq<MailPartData>> := [[Content("text/plain", text)], [Content("text/html", html), logo]];
    assert lists[..1] == [lists[0]];
    assert lists[..1][..0] == [];
    assert Concat(lists[..1]) == lists[0];
  }

  // ---------------------------------------------------------------------------------------
  // The attachment quota

  function CountAttachments(items: seq<MailPartData>): nat {
    if items == [] then 0
    else CountAttachments(items[..|items| - 1]) + (if items[|items| - 1].Attachment? then 1 else 0)
  }

  function SumCounts(lists: seq<seq<MailPartData>>): nat {
    if lists == [] then 0 else SumCounts(lists[..|lists| - 1]) + CountAttachments(lists[|lists| - 1])
  }

  lemma {:induction false} CountAppend(a: seq<MailPartData>, b: seq<MailPartData>)
    ensures CountAttachments(a + b) == CountAttachments(a) + CountAttachments(b)
    decreases |b|
  {
    if b == [] {
      assert a + b == a;
    } else {
      assert (a + b)[..|a + b| - 1] == a + b[..|b| - 1];
      CountAppend(a, b[..|b| - 1]);
    }
  }

  lemma {:induction false} CountZeroMeansNoAttachment(items: seq<MailPartData>)
    requires CountAttachments(items) == 0
    ensures forall d :: d in items ==> d.Content?
  {
    if items != [] {
      CountZeroMeansNoAttachment(items[..|items| - 1]);
      assert forall d :: d in items ==> d in items[..|items| - 1] || d == items[|items| - 1];
    }
  }

  /** The preference rule and concatenation never keep more attachments than the
      children's lists hold together. */
  lemma {:induction false} CountCombine(prefs: seq<string>, contentType: string, lists: seq<seq<MailPartData>>)
    ensures CountAttachments(Combine(prefs, contentType, lists)) <= SumCounts(lists)
  {
    CountConcatSelected(FirstPreferred(prefs, lists).GetOr(""), lists);
  }

  lemma {:induction false} CountConcatSelected(t: string, lists: seq<seq<MailPartData>>)
    ensures CountAttachments(Concat(lists)) == SumCounts(lists)
    ensures CountAttachments(Selected(t, lists)) <= SumCounts(lists)
  {
    if lists != [] {
      var init := lists[..|lists| - 1];
      var last := lists[|lists| - 1];
      CountConcatSelected(t, init);
      CountAppend(Concat(init), last);
      CountAppend(Selected(t, init), if HasPreferred(last, t) then last else []);
    }
  }

  /** The counter never goes down, grows by at least the number of attachments the subtree
      yields (more when the preference rule drops some), and never passes a non-negative
      limit it starts within. */
  lemma {:induction false} CounterAccounting(cfg: Config, env: Platform, part: MimePart, counter: int)
    ensures var (items, after) := ExtractSpec(cfg, env, part, counter);
      && counter <= after
      && CountAttachments(items) <= after - counter
      && (cfg.maxAllowedNumberOfAttachments >= 0 && counter <= cfg.maxAllowedNumberOfAttachments ==>
            after <= cfg.maxAllowedNumberOfAttachments)
    decreases part, 1
  {
    match part
    case Unreadable =>
    case Leaf(_, _, _, _) =>
      LeafClassification(cfg, env, part, counter);
      if LeafSpec(cfg, env, part, counter).Ok? {
        var d := LeafSpec(cfg, env, part, counter).value;
        assert [d][..0] == [];
      }
    case Multipart(contentType, children) =>
      ChildrenCounterAccounting(cfg, env, children, |children|, counter);
      CountCombine(cfg.preferredContentTypes, contentType, ExtractChildren(cfg, env, children, |children|, counter).0);
  }

  lemma {:induction false} ChildrenCounterAccounting(cfg: Config, env: Platform, children: seq<MimePart>, n: nat, counter: int)
    requires n <= |children|
    ensures var (lists, after) := ExtractChildren(cfg, env, children, n, counter);
      && counter <= after
      && SumCounts(lists) <= after - counter
      && (cfg.maxAllowedNumberOfAttachments >= 0 && counter <= cfg.maxAllowedNumberOfAttachments ==>
            after <= cfg.maxAllowedNumberOfAttachments)
    decreases children, n
  {
    if n > 0 {
      ChildrenCounterAccounting(cfg, env, children, n - 1, counter);
      var (lists, middle) := ExtractChildren(cfg, env, children, n - 1, counter);
      CounterAccounting(cfg, env, children[n - 1], middle);
      var items := ExtractSpec(cfg, env, children[n - 1], middle).0;
      assert (lists + [items])[..|lists + [items]| - 1] == lists;
    }
  }

  /** A whole message never yields more attachments than a non-negative limit allows. */
  lemma AttachmentLimitRespected(cfg: Config, env: Platform, message: MimePart)
    requires cfg.maxAllowedNumberOfAttachments >= 0
    ensures CountAttachments(ExtractSpec(cfg, env, message, 0).0) <= cfg.maxAllowedNumberOfAttachments
  {
    CounterAccounting(cfg, env, message, 0);
  }

  /** MessageParserTest: with a limit of 0 no attachment is extracted at all. */
  lemma ZeroLimitYieldsNoAttachment(cfg: Config, env: Platform, message: MimePart)
    requires cfg.maxAllowedNumberOfAttachments == 0
    ensures forall d :: d in ExtractSpec(cfg, env, message, 0).0 ==> d.Content?
  {
    AttachmentLimitRespected(cfg, env, message);
    CountZeroMeansNoAttachment(ExtractSpec(cfg, env, message, 0).0);
  }

  /** A leaf yields at most one part, exactly one when it is extracted, and the counter
      moves only for an attachment that was taken; an unreadable part yields nothing. */
  lemma LeafOutcome(cfg: Config, env: Platform, part: MimePart, counter: int)
    requires part.Leaf?
    ensures var (items, after) := ExtractSpec(cfg, env, part, counter);
      && (LeafSpec(cfg, env, part, counter).Ok? ==> items == [LeafSpec(cfg, env, part, counter).value])
      && (LeafSpec(cfg, env, part, counter).Err? ==> items == [] && after == counter)
      && (after == counter + 1 <==> |items| == 1 && items[0].Attachment?)
      && (after == counter || after == counter + 1)
  {
  }

  // ---------------------------------------------------------------------------------------
  // What every extracted part satisfies

  /** A content part has one of the three content types; an attachment has a normalised
      type that is not one of them, passed the file type policy, holds at most the size
      limit and records its own size and type. */
  predicate WellFormedItem(cfg: Config, d: MailPartData) {
    match d
    case Content(t, _) => IsContentType(t)
    case Attachment(t, a, bytes, _) =>
      && !IsContentType(t) && ';' !in t && ToLower(t) == t
      && cfg.fileTypeBucket.checkMimeType(t)
      && a.mediaType == t
      && a.fileSize == |bytes| <= cfg.maxAllowedAttachmentSizeInBytes
      && a.creationDate == a.lastModificationDate
  }

  predicate AllWellFormed(cfg: Config, items: seq<MailPartData>) {
    forall d :: d in items ==> WellFormedItem(cfg, d)
  }

  lemma CombineKeepsWellFormed(cfg: Config, prefs: seq<string>, contentType: string, lists: seq<seq<MailPartData>>)
    requires forall i :: 0 <= i < |lists| ==> AllWellFormed(cfg, lists[i])
    ensures AllWellFormed(cfg, Combine(prefs, contentType, lists))
  {
    forall d | d in Combine(prefs, contentType, lists) ensures WellFormedItem(cfg, d) {
      if IsAlternative(contentType) && FirstPreferred(prefs, lists).Some? {
        SelectedMembership(FirstPreferred(prefs, lists).value, lists, d);
      } else {
        ConcatMembership(lists, d);
      }
    }
  }

  lemma {:induction false} ExtractedItemsWellFormed(cfg: Config, env: Platform, part: MimePart, counter: int)
    ensures AllWellFormed(cfg, ExtractSpec(cfg, env, part, counter).0)
    decreases part, 1
  {
    match part
    case Unreadable =>
    case Leaf(_, _, _, _) =>
      if LeafSpec(cfg, env, part, counter).Ok? {
        var header := part.contentTypeHeader.value;
        var mimeType := NormaliseContentType(header);
        if !IsContentType(mimeType) {
          AttachmentAcceptedIff(cfg, env, part.fileName, part.contentId, part.stream, mimeType, counter);
        }
      }
    case Multipart(contentType, children) =>
      var lists := ExtractChildren(cfg, env, children, |children|, counter).0;
      forall i | 0 <= i < |lists| ensures AllWellFormed(cfg, lists[i]) {
        ChildrenWellFormed(cfg, env, children, |children|, counter, i);
      }
      CombineKeepsWellFormed(cfg, cfg.preferredContentTypes, contentType, lists);
  }

  lemma {:induction false} ChildrenWellFormed(cfg: Config, env: Platform, children: seq<MimePart>, n: nat, counter: int, i: nat)
    requires i < n <= |children|
    ensures AllWellFormed(cfg, ExtractChildren(cfg, env, children, n, counter).0[i])
    decreases children, n
  {
    var (lists, middle) := ExtractChildren(cfg, env, children, n - 1, counter);
    if i < n - 1 {
      ChildrenWellFormed(cfg, env, children, n - 1, counter, i);
    } else {
      ExtractedItemsWellFormed(cfg, env, children[n - 1], middle);
    }
  }

  /** MessageParserTest: an attachment whose type the file type policy forbids is never
      extracted, and with a size limit of 0 only empty attachments can be. */
  lemma PolicyAndSizeRespected(cfg: Config, env: Platform, message: MimePart)
    ensures forall d :: d in ExtractSpec(cfg, env, message, 0).0 && d.Attachment? ==>
      cfg.fileTypeBucket.checkMimeType(d.contentType) && |d.bytes| <= cfg.maxAllowedAttachmentSizeInBytes
    ensures cfg.maxAllowedAttachmentSizeInBytes == 0 ==>
      forall d :: d in ExtractSpec(cfg, env, message, 0).0 && d.Attachment? ==> d.bytes == []
  {
    ExtractedItemsWellFormed(cfg, env, message, 0);
  }
}
