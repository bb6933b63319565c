/**
 * The page logic of main.js: the mobile menu, active navigation links, smooth
 * scrolling to in-page anchors, copying to the clipboard with its legacy
 * fallback and feedback toast, the contributor count, and the animation-frame
 * gate for scroll events. The document is an object whose fields stand for the
 * parts of the DOM these handlers read and write; each handler is a method that
 * changes those fields, specified by a pure rule on the old state.
 */
module Page {
  import opened Strings
  import Escaping

  // ---------------------------------------------------------------- mobile menu

  /** The element with id `mobileMenu`: absent, or present and either carrying
      the class `hidden` or not. */
  datatype Menu = Absent | Present(hidden: bool)

  /** `menu.classList.toggle('hidden')`, guarded by the element being there. */
  function Toggled(m: Menu): (r: Menu)
    ensures r.Present? <==> m.Present?
    ensures m.Present? ==> r.hidden == !m.hidden
  {
    match m
    case Absent => Absent
    case Present(h) => Present(!h)
  }

  /** `menu.classList.add('hidden')`, guarded by the element being there. */
  function Closed(m: Menu): (r: Menu)
    ensures r.Present? <==> m.Present?
    ensures m.Present? ==> r.hidden
  {
    if m.Present? then Present(true) else Absent
  }

  /** The keydown listener: Escape closes an open menu; nothing else changes it. */
  function AfterKey(m: Menu, key: string): (r: Menu)
    ensures r.Present? <==> m.Present?
    ensures m.Present? ==> (r.hidden <==> m.hidden || key == "Escape")
  {
    if key == "Escape" && m.Present? && !m.hidden then Closed(m) else m
  }

  /** The document click listener: a click whose target lies in neither the menu
      button nor the menu closes the menu. */
  function AfterClick(m: Menu, inButton: bool, inMenu: bool): (r: Menu)
    ensures r.Present? <==> m.Present?
    ensures m.Present? ==> (r.hidden <==> m.hidden || (!inButton && !inMenu))
  {
    if !inButton && !inMenu then Closed(m) else m
  }

  /** Toggling twice restores the menu; without a menu element toggling does nothing. */
  lemma {:induction false} ToggleTwice(m: Menu)
    ensures Toggled(Toggled(m)) == m
    ensures m.Absent? ==> Toggled(m) == m
  {
    match m
    case Absent =>
    case Present(h) => assert Toggled(Toggled(m)) == Present(!!h);
  }

  /** Escape on an open menu closes it; Escape on a closed menu and any other key
      leave the menu as it was. */
  lemma EscapeKeyRule(m: Menu, key: string)
    ensures m.Present? && !m.hidden && key == "Escape" ==> AfterKey(m, key) == Present(true)
    ensures (m.Present? && m.hidden) || key != "Escape" ==> AfterKey(m, key) == m
  {
  }

  /** A click outside both the button and the menu closes it; a click inside either
      leaves it as it was. */
  lemma OutsideClickRule(m: Menu, inButton: bool, inMenu: bool)
    ensures m.Present? && !inButton && !inMenu ==> AfterClick(m, inButton, inMenu) == Present(true)
    ensures inButton || inMenu ==> AfterClick(m, inButton, inMenu) == m
  {
  }

  // ---------------------------------------------------------------- smooth scrolling

  /** Height of the sticky header that a scroll target is kept clear of. */
  const HeaderOffset := 80

  /** The element id an in-page link points at: its `href` without the leading `#`. */
  function TargetId(href: string): (id: string)
    requires |href| > 0 && href[0] == '#'
    ensures href == "#" + id
  {
    href[1..]
  }

  /** The vertical position the page scrolls to for a target at `offsetTop`:
      `HeaderOffset` above it, not clamped at the top of the page. */
  function ScrollTop(offsetTop: int): (y: int)
    ensures y + HeaderOffset == offsetTop
    ensures offsetTop < HeaderOffset ==> y < 0
  {
    offsetTop - HeaderOffset
  }

  /** The links that mark one of them active: exactly link `k` of `n`. */
  function OnlyActive(n: nat, k: nat): (flags: seq<bool>)
    ensures |flags| == n
    ensures forall j :: 0 <= j < n ==> (flags[j] <==> j == k)
  {
    seq(n, j => j == k)
  }

  // ---------------------------------------------------------------- clipboard and feedback

  const FeedbackId := "copy-feedback"
  const CopiedMessage := "Copied to clipboard!"
  const FailedMessage := "Copy failed. Please copy manually."

  /** What `navigator.clipboard.writeText` does: the API is missing or the context
      is not secure, or the write resolves, or it rejects. */
  datatype ClipboardApi = Unavailable | Resolves | Rejects

  /** What `document.execCommand('copy')` does: returns a flag, or throws. */
  datatype ExecOutcome = Returns(successful: bool) | Throws

  /** The message the legacy copy shows. */
  function LegacyMessage(e: ExecOutcome): (msg: string)
    ensures msg == CopiedMessage <==> e == Returns(true)
    ensures msg == CopiedMessage || msg == FailedMessage
  {
    if e == Returns(true) then CopiedMessage else FailedMessage
  }

  /** An element the handlers create or look up. `text` is its `textContent`, or
      a textarea's `value`; `shown` says whether the feedback toast is slid into view. */
  class Element {
    const tag: string
    const id: string
    var text: string
    var shown: bool

    constructor (tag: string, id: string, text: string)
      ensures this.tag == tag && this.id == id && this.text == text && !shown
    {
      this.tag := tag;
      this.id := id;
      this.text := text;
      shown := false;
    }
  }

  /** `getElementById` over a list of nodes: the first one with that id. */
  function FindById(nodes: seq<Element>, id: string): (r: Option<Element>)
    ensures r.None? <==> forall i :: 0 <= i < |nodes| ==> nodes[i].id != id
    ensures r.Some? ==> exists i :: 0 <= i < |nodes| && nodes[i] == r.value && r.value.id == id
                                   && forall j :: 0 <= j < i ==> nodes[j].id != id
  {
    if nodes == [] then None
    else if nodes[0].id == id then Some(nodes[0])
    else
      var r := FindById(nodes[1..], id);
      assert forall i :: 0 <= i < |nodes[1..]| ==> nodes[1..][i] == nodes[i + 1];
      if r.Some? then
        var i :| 0 <= i < |nodes[1..]| && nodes[1..][i] == r.value && r.value.id == id
                 && forall j :: 0 <= j < i ==> nodes[1..][j].id != id;
        assert nodes[i + 1] == r.value;
        r
      else r
  }

  /** An appended node that lacks the id does not change the lookup. */
  lemma {:induction false} FindByIdAppend(nodes: seq<Element>, x: Element, id: string)
    requires x.id != id
    ensures FindById(nodes + [x], id) == FindById(nodes, id)
  {
    if nodes != [] {
      assert (nodes + [x])[0] == nodes[0];
      assert (nodes + [x])[1..] == nodes[1..] + [x];
      FindByIdAppend(nodes[1..], x, id);
    } else {
      assert nodes + [x] == [x];
    }
  }

  /** `parent.removeChild(e)` of a child `e`: the children without (the first
      occurrence of) `e`. */
  function Without(nodes: seq<Element>, e: Element): (r: seq<Element>)
    requires e in nodes
    ensures |r| == |nodes| - 1
    ensures multiset(r) + multiset{e} == multiset(nodes)
  {
    assert nodes == [nodes[0]] + nodes[1..];
    if nodes[0] == e then nodes[1..]
    else [nodes[0]] + Without(nodes[1..], e)
  }

  /** Removing a node appended after `before`, and followed only by `after`, gives
      back `before` followed by `after`. */
  lemma {:induction false} WithoutAppended(before: seq<Element>, e: Element, after: seq<Element>)
    requires e !in before
    ensures Without(before + [e] + after, e) == before + after
  {
    if before == [] {
      assert before + [e] + after == [e] + after;
      assert ([e] + after)[1..] == after;
    } else {
      var s := before + [e] + after;
      assert s[0] == before[0];
      assert s[1..] == before[1..] + [e] + after;
      WithoutAppended(before[1..], e, after);
      assert before + after == [before[0]] + (before[1..] + after);
    }
  }

  // ---------------------------------------------------------------- contributor count

  /** How the contributors request ends: an OK response listing `count`
      contributors, a response that is not OK, or an exception. */
  datatype FetchOutcome = Listed(count: nat) | NotOk | Failed

  /** The text the contributor-count element gets. */
  function CountText(o: FetchOutcome): (text: string)
    ensures |text| > 0
  {
    match o
    case Listed(n) => Decimal(n) + "+"
    case NotOk => "Many"
    case Failed => "Many"
  }

  /** An OK response shows the decimal count followed by `+`, from which the count
      can be read back; every failure shows exactly `Many`, and no count does. */
  lemma CountTextMeaning(o: FetchOutcome)
    ensures o.Listed? ==>
      var t := CountText(o);
      t[|t| - 1] == '+' && IsDigits(t[..|t| - 1]) && DecimalValue(t[..|t| - 1]) == o.count
    ensures CountText(o) == "Many" <==> !o.Listed?
  {
    if o.Listed? {
      var t := CountText(o);
      assert t[..|t| - 1] == Decimal(o.count);
      DecimalRoundTrip(o.count);
      assert t[|t| - 1] != "Many"[3];
    }
  }

  // ---------------------------------------------------------------- the document

  class Document {
    /** Whether an element with `onclick="toggleMobileMenu()"` exists. */
    const hasMenuButton: bool
    var menu: Menu
    /** The `active` class of each `nav a[href^="#"]` link, in document order. */
    var navActive: seq<bool>
    /** `offsetTop` of each element that has an id. */
    const anchors: map<string, int>
    /** The `top` of every `window.scrollTo` call so far. */
    var scrollRequests: seq<int>
    /** The children of `document.body`. */
    var body: seq<Element>
    var clipboard: string
    /** Whether an element with id `contributor-count` exists, and its text. */
    const hasCountElement: bool
    var countText: string

    constructor (hasMenuButton: bool, menu: Menu, navActive: seq<bool>, anchors: map<string, int>,
                 body: seq<Element>, clipboard: string, hasCountElement: bool, countText: string)
      ensures this.hasMenuButton == hasMenuButton && this.menu == menu && this.navActive == navActive
      ensures this.anchors == anchors && this.body == body && this.clipboard == clipboard
      ensures this.hasCountElement == hasCountElement && this.countText == countText
      ensures scrollRequests == []
    {
      this.hasMenuButton := hasMenuButton;
      this.menu := menu;
      this.navActive := navActive;
      this.anchors := anchors;
      scrollRequests := [];
      this.body := body;
      this.clipboard := clipboard;
      this.hasCountElement := hasCountElement;
      this.countText := countText;
    }

    /** The click and keydown listeners exist only when the page has both the menu
        button and the menu. */
    predicate MenuListeners()
      reads this
    {
      hasMenuButton && menu.Present?
    }

    /** `document.getElementById(id).offsetTop`, or nothing when no element has that
        id; no element has the empty id. */
    function TargetTop(id: string): (r: Option<int>)
      ensures r.Some? <==> id != "" && id in anchors
      ensures r.Some? ==> r.value == anchors[id]
    {
      if id != "" && id in anchors then Some(anchors[id]) else None
    }

    /** `toggleMobileMenu()`. */
    method ToggleMobileMenu()
      modifies this`menu
      ensures menu == Toggled(old(menu))
    {
      if menu.Present? {
        menu := Present(!menu.hidden);
      }
    }

    /** The keydown listener. */
    method OnKeyDown(key: string)
      modifies this`menu
      ensures menu == if old(MenuListeners()) then AfterKey(old(menu), key) else old(menu)
    {
      if MenuListeners() {
        if key == "Escape" && !menu.hidden {
          menu := Present(true);
        }
      }
    }

    /** The document click listener; `inButton` and `inMenu` say whether the click
        target lies inside the button or the menu. */
    method OnDocumentClick(inButton: bool, inMenu: bool)
      modifies this`menu
      ensures menu == if old(MenuListeners()) then AfterClick(old(menu), inButton, inMenu) else old(menu)
    {
      if MenuListeners() && !inButton && !inMenu {
        menu := Present(true);
      }
    }

    /** The click listener of navigation link `k`: clear `active` on every link, then
        set it on link `k`. */
    method OnNavLinkClick(k: nat)
      requires k < |navActive|
      modifies this`navActive
      ensures navActive == OnlyActive(|old(navActive)|, k)
    {
      var i := 0;
      while i < |navActive|
        invariant 0 <= i <= |navActive| == |old(navActive)|
        invariant forall j :: 0 <= j < i ==> !navActive[j]
      {
        navActive := navActive[i := false];
        i := i + 1;
      }
      navActive := navActive[k := true];
    }

    /** The click listener of an in-page link: scroll to the target, if there is one,
        and then close the menu. */
    method OnAnchorClick(href: string)
      requires |href| > 0 && href[0] == '#'
      modifies this`scrollRequests, this`menu
      ensures TargetTop(TargetId(href)).Some? ==>
        scrollRequests == old(scrollRequests) + [ScrollTop(anchors[TargetId(href)])]
        && menu == Closed(old(menu))
      ensures TargetTop(TargetId(href)).None? ==>
        scrollRequests == old(scrollRequests) && menu == old(menu)
    {
      var targetId := TargetId(href);
      var target := TargetTop(targetId);
      if target.Some? {
        scrollRequests := scrollRequests + [ScrollTop(target.value)];
        if menu.Present? {
          menu := Present(true);
        }
      }
    }

    /** `showCopyFeedback(message)`: reuse the feedback element if the body has one,
        otherwise create it and append it to the body; then show the message. */
    method ShowCopyFeedback(message: string) returns (fb: Element)
      modifies this`body, body
      ensures old(FindById(body, FeedbackId)).Some? ==>
        fb == old(FindById(body, FeedbackId)).value && body == old(body)
      ensures old(FindById(body, FeedbackId)).None? ==>
        fresh(fb) && fb.id == FeedbackId && fb.tag == "div" && body == old(body) + [fb]
      ensures fb.text == message && fb.shown
      ensures forall e :: e in old(body) && e != fb ==> e.text == old(e.text) && e.shown == old(e.shown)
    {
      var found := FindById(body, FeedbackId);
      if found.Some? {
        fb := found.value;
      } else {
        fb := new Element("div", FeedbackId, "");
        body := body + [fb];
      }
      fb.text := message;
      fb.shown := true;
    }

    /** `fallbackCopyTextToClipboard(text)`: put the text in a new textarea appended
        to the body, run the copy command, report the outcome, and remove the
        textarea again whatever the outcome. */
    method FallbackCopy(text: string, exec: ExecOutcome) returns (fb: Element)
      modifies this`body, this`clipboard, body
      ensures clipboard == if exec == Returns(true) then text else old(clipboard)
      ensures fb.text == LegacyMessage(exec) && fb.shown
      ensures old(FindById(body, FeedbackId)).Some? ==>
        fb == old(FindById(body, FeedbackId)).value && body == old(body)
      ensures old(FindById(body, FeedbackId)).None? ==>
        fresh(fb) && fb.id == FeedbackId && body == old(body) + [fb]
      ensures forall e :: e in old(body) && e != fb ==> e.text == old(e.text) && e.shown == old(e.shown)
    {
      var textArea := new Element("textarea", "", text);
      ghost var before := body;
      body := body + [textArea];
      FindByIdAppend(before, textArea, FeedbackId);
      if exec == Returns(true) {
        clipboard := textArea.text;
      }
      fb := ShowCopyFeedback(LegacyMessage(exec));
      if FindById(before, FeedbackId).Some? {
        assert before + [textArea] == before + [textArea] + [];
        WithoutAppended(before, textArea, []);
      } else {
        WithoutAppended(before, textArea, [fb]);
      }
      body := Without(body, textArea);
    }

    /** `copyToClipboard(text)`: unescape the button's payload, then write it with the
        clipboard API when that is available, falling back to the legacy copy when
        it is not or when the write rejects. */
    method CopyToClipboard(text: string, api: ClipboardApi, exec: ExecOutcome) returns (fb: Element)
      modifies this`body, this`clipboard, body
      ensures clipboard == if api == Resolves || exec == Returns(true) then Escaping.Unescape(text) else old(clipboard)
      ensures fb.text == (if api == Resolves then CopiedMessage else LegacyMessage(exec)) && fb.shown
      ensures old(FindById(body, FeedbackId)).Some? ==>
        fb == old(FindById(body, FeedbackId)).value && body == old(body)
      ensures old(FindById(body, FeedbackId)).None? ==>
        fresh(fb) && fb.id == FeedbackId && body == old(body) + [fb]
      ensures forall e :: e in old(body) && e != fb ==> e.text == old(e.text) && e.shown == old(e.shown)
    {
      var cleanText := Escaping.Unescape(text);
      if api == Resolves {
        clipboard := cleanText;
        fb := ShowCopyFeedback(CopiedMessage);
      } else {
        fb := FallbackCopy(cleanText, exec);
      }
    }

    /** `fetchContributorCount()` once the request has ended with `outcome`; with no
        count element nothing is written. */
    method FetchContributorCount(outcome: FetchOutcome)
      modifies this`countText
      ensures countText == if hasCountElement then CountText(outcome) else old(countText)
    {
      if hasCountElement {
        countText := CountText(outcome);
      }
    }
  }

  // ---------------------------------------------------------------- scroll gate

  /** The `ticking` flag of the scroll listener, with the animation frames it has
      requested and the browser has not yet run. */
  class ScrollGate {
    var ticking: bool
    var pendingFrames: nat

    /** At most one frame is pending, and one is exactly while `ticking` is set. */
    ghost predicate Valid()
      reads this
    {
      pendingFrames == if ticking then 1 else 0
    }

    constructor ()
      ensures Valid() && !ticking && pendingFrames == 0
    {
      ticking := false;
      pendingFrames := 0;
    }

    /** The scroll listener `requestScrollUpdate`: request a frame unless one is
        already pending. */
    method RequestScrollUpdate()
      requires Valid()
      modifies this
      ensures Valid() && ticking
      ensures pendingFrames == 1
      ensures old(ticking) ==> pendingFrames == old(pendingFrames)
    {
      if !ticking {
        pendingFrames := pendingFrames + 1;
        ticking := true;
      }
    }

    /** The browser runs the pending frame, `updateScrollEffects`. */
    method RunFrame()
      requires Valid() && pendingFrames > 0
      modifies this
      ensures Valid() && !ticking && pendingFrames == 0
    {
      pendingFrames := pendingFrames - 1;
      ticking := false;
    }
  }
}
