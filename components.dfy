/**
 * The template renderers of components.js. Each JavaScript class is an
 * immutable record whose `render` (or `generate`) builds an HTML fragment with
 * a template literal; the literal text, whitespace included, is reproduced
 * here. Nothing is escaped or validated: field values are pasted in verbatim.
 *
 * Long literal text is written as a concatenation of short string literals,
 * often splitting a class list mid-way. The text is the same; short literals
 * keep the verifier's work on each template small.
 */
module Components {
  import opened Strings
  import Escaping

  /** `${v}` of a field that may be missing: JavaScript writes `undefined`. */
  function Interpolate(v: Option<string>): string
  {
    v.GetOr("undefined")
  }

  // ---------------------------------------------------------------- BadgeComponent

  datatype BadgeConfig = BadgeConfig(url: Option<string>, src: Option<string>, alt: Option<string>)

  datatype BadgeComponent = BadgeComponent(config: BadgeConfig)
  {
    function Pieces(): seq<string>
    {
      [ "\n            ",
        "<a href=\"" + Interpolate(config.url) + "\"",
        (" target=\"_blank\" rel=\"noopener\" " + "class=\"badge-link\">\n                "),
        "<img src=\"" + Interpolate(config.src) + "\"",
        " ",
        "alt=\"" + Interpolate(config.alt) + "\"",
        " class=\"h-6\">\n            </a>\n        " ]
    }

    function Generate(): string
    {
      Join(Pieces())
    }
  }

  /** The badge links to the configured url and shows the configured image, each
      pasted in as given; a missing field shows up as the text `undefined`. */
  lemma BadgeEmbedsConfig(b: BadgeComponent)
    ensures Contains(b.Generate(), "<a href=\"" + Interpolate(b.config.url) + "\"")
    ensures Contains(b.Generate(), "<img src=\"" + Interpolate(b.config.src) + "\"")
    ensures Contains(b.Generate(), "alt=\"" + Interpolate(b.config.alt) + "\"")
    ensures b.config.url.None? ==> Contains(b.Generate(), "<a href=\"" + "undefined" + "\"")
  {
    JoinAt(b.Pieces(), 1);
    JoinAt(b.Pieces(), 3);
    JoinAt(b.Pieces(), 5);
  }

  // ---------------------------------------------------------------- FeatureCard

  datatype FeatureItem = FeatureItem(command: string, description: string)

  /** One row of a feature card. */
  function ItemFragment(item: FeatureItem): string
  {
    Join([ ("\n            <div class=\"flex " + "justify-between\">\n                "),
           "<code>" + item.command + "</code>",
           "\n                ",
           "<span class=\"text-gray-600\">" + item.description + "</span>",
           "\n            </div>\n        " ])
  }

  datatype FeatureCard = FeatureCard(title: string, description: string, icon: string, items: seq<FeatureItem>)
  {
    function ItemsHtml(): string
    {
      ConcatMap(ItemFragment, items)
    }

    function Pieces(): seq<string>
    {
      [ ("\n            <div class=\"feature-card " + "rounded-2xl p-6\">\n                <h3 " + "class=\"text-lg md:text-xl font-bold " + "claude-primary mb-4 flex items-center\">" + "\n                    "),
        "<i class=\"" + icon + " mr-3\"></i>",
        "\n                    ",
        title + "\n                </h3>",
        ("\n                <div class=\"space-y-2 " + "text-xs md:text-sm\">" + "\n                    "),
        ItemsHtml() + "\n                </div>",
        "\n            </div>\n        " ]
    }

    function Render(): string
    {
      Join(Pieces())
    }
  }

  /** `new FeatureCard(title, description, icon, items = [])`. */
  function NewFeatureCard(title: string, description: string, icon: string, items: Option<seq<FeatureItem>>): (c: FeatureCard)
    ensures c.title == title && c.description == description && c.icon == icon
    ensures c.items == (if items.Some? then items.value else [])
  {
    FeatureCard(title, description, icon, items.GetOr([]))
  }

  /** A row shows its command as code and its description as grey text. */
  lemma ItemFragmentFields(item: FeatureItem)
    ensures Contains(ItemFragment(item), "<code>" + item.command + "</code>")
    ensures Contains(ItemFragment(item), "<span class=\"text-gray-600\">" + item.description + "</span>")
  {
    var ps := [ ("\n            <div class=\"flex " + "justify-between\">\n                "),
                "<code>" + item.command + "</code>",
                "\n                ",
                "<span class=\"text-gray-600\">" + item.description + "</span>",
                "\n            </div>\n        " ];
    JoinAt(ps, 1);
    JoinAt(ps, 3);
  }

  /** The card shows its icon, its title as the heading text, and its rows. */
  lemma FeatureCardFields(c: FeatureCard)
    ensures Contains(c.Render(), "<i class=\"" + c.icon + " mr-3\"></i>")
    ensures Contains(c.Render(), c.title + "\n                </h3>")
    ensures Contains(c.Render(), c.ItemsHtml() + "\n                </div>")
  {
    JoinAt(c.Pieces(), 1);
    JoinAt(c.Pieces(), 3);
    JoinAt(c.Pieces(), 5);
  }

  /** Each row sits where the rows before it end, and a card without rows has an
      empty list. */
  lemma FeatureCardRowsInOrder(c: FeatureCard)
    ensures c.items == [] ==> c.ItemsHtml() == ""
    ensures forall k :: 0 <= k < |c.items| ==>
      OccursAt(c.ItemsHtml(), ItemFragment(c.items[k]), |ConcatMap(ItemFragment, c.items[..k])|)
  {
    forall k | 0 <= k < |c.items|
      ensures OccursAt(c.ItemsHtml(), ItemFragment(c.items[k]), |ConcatMap(ItemFragment, c.items[..k])|)
    {
      ConcatMapAt(ItemFragment, c.items, k);
    }
  }

  /** A card built without items renders an empty list of rows. */
  lemma FeatureCardDefaultItems(title: string, description: string, icon: string)
    ensures NewFeatureCard(title, description, icon, None).items == []
    ensures NewFeatureCard(title, description, icon, None).ItemsHtml() == ""
  {
  }

  /** The description a feature card is built with never reaches its markup. */
  lemma FeatureCardIgnoresDescription(c: FeatureCard, d: string)
    ensures c.(description := d).Render() == c.Render()
  {
  }

  // ---------------------------------------------------------------- ContributorCard

  const GitHub := "https://github.com/"

  /** The avatar of a placeholder card: an icon, not an image. */
  const PlaceholderIcon := ("<i class=\"fas fa-users text-2xl " + "md:text-3xl claude-primary\"></i>")

  /** The markup that opens a card, up to the value of its link's `href`. */
  const CardOpen := ("\n            <div class=\"feature-card " + "rounded-2xl p-6 text-center group " + "hover:scale-105 transition-transform " + "duration-300\">\n                <a href=\"")

  /** The opening tag of a contributor card's heading. */
  const NameHeadingOpen := ("<h3 class=\"text-lg " + "md:text-xl font-bold claude-primary " + "mb-2\">")

  /** One tag of a contributor card. */
  function TagFragment(tag: string): string
  {
    Join([ ("\n            <span " + "class=\"claude-bg-light px-2 py-1 " + "rounded-full\">"), tag, "</span>\n        " ])
  }

  datatype ContributorCard = ContributorCard(username: string, displayName: string, role: string, tags: seq<string>, isPlaceholder: bool)
  {
    function AvatarUrl(): string
    {
      if isPlaceholder then "" else GitHub + username + ".png"
    }

    function ProfileUrl(): string
    {
      if isPlaceholder then "#" else GitHub + username
    }

    function TagsHtml(): string
    {
      ConcatMap(TagFragment, tags)
    }

    function ImagePieces(): seq<string>
    {
      [ "<img src=\"", AvatarUrl() + "\" alt=\"" + displayName + "\"", " class=\"w-full h-full object-cover\">" ]
    }

    function AvatarContent(): string
    {
      if isPlaceholder then PlaceholderIcon else Join(ImagePieces())
    }

    function Pieces(): seq<string>
    {
      [ CardOpen,
        ProfileUrl() + "\"",
        (" target=\"_blank\" rel=\"noopener\" " + "class=\"block\">\n                    <div " + "class=\"w-20 h-20 md:w-24 md:h-24 " + "mx-auto mb-4 rounded-full " + "overflow-hidden border-4 " + "border-orange-200 " + "group-hover:border-orange-400 " + "transition-colors "),
        if isPlaceholder then ("bg-gradient-to-br from-orange-100 " + "to-orange-200 flex items-center " + "justify-center") else "",
        "\">\n                        ",
        AvatarContent(),
        ("\n                    </div>" + "\n                    "),
        NameHeadingOpen + displayName + "</h3>",
        ("\n                    <p " + "class=\"text-xs md:text-sm text-gray-600 " + "mb-2\">"),
        role,
        ("</p>\n                    <div " + "class=\"flex justify-center space-x-2 " + "text-xs\">\n                        "),
        TagsHtml(),
        ("\n                    </div>" + "\n                </a>\n            </div>" + "\n        ") ]
    }

    function Render(): string
    {
      Join(Pieces())
    }
  }

  /** `new ContributorCard(username, displayName, role, tags = [], isPlaceholder = false)`. */
  function NewContributorCard(username: string, displayName: string, role: string,
                              tags: Option<seq<string>>, isPlaceholder: Option<bool>): (c: ContributorCard)
    ensures c.username == username && c.displayName == displayName && c.role == role
    ensures c.tags == (if tags.Some? then tags.value else [])
    ensures c.isPlaceholder <==> isPlaceholder == Some(true)
  {
    ContributorCard(username, displayName, role, tags.GetOr([]), isPlaceholder.GetOr(false))
  }

  /** A card built with only the three required arguments is a real card without tags. */
  lemma ContributorCardDefaults(username: string, displayName: string, role: string)
    ensures NewContributorCard(username, displayName, role, None, None).tags == []
    ensures !NewContributorCard(username, displayName, role, None, None).isPlaceholder
    ensures NewContributorCard(username, displayName, role, None, None).ProfileUrl() == "https://github.com/" + username
  {
  }

  /** A placeholder card links nowhere (`#`) and shows an icon with no avatar url; a
      real card links to the user's GitHub profile and its image has the profile's
      `.png` as its whole source and the display name as its whole alternative text. */
  lemma ContributorCardTargets(c: ContributorCard)
    ensures c.isPlaceholder ==>
      c.ProfileUrl() == "#" && c.AvatarUrl() == "" && c.AvatarContent() == PlaceholderIcon
    ensures !c.isPlaceholder ==>
      c.ProfileUrl() == "https://github.com/" + c.username
      && c.AvatarUrl() == c.ProfileUrl() + ".png"
      && OccursAt(c.AvatarContent(), "<img src=\"", 0)
      && OccursAt(c.AvatarContent(), c.AvatarUrl() + "\" alt=\"" + c.displayName + "\"", |"<img src=\""|)
  {
    if !c.isPlaceholder {
      var im := c.ImagePieces();
      JoinAt(im, 0);
      JoinAt(im, 1);
      assert im[..1] == ["<img src=\""];
      assert Join(im[..1]) == "<img src=\"" + Join([]);
    }
  }

  /** The whole card is one link: it opens with the link whose target is exactly
      the profile url. */
  lemma ContributorCardOpensWithLink(c: ContributorCard)
    ensures OccursAt(c.Render(), CardOpen, 0)
    ensures OccursAt(c.Render(), c.ProfileUrl() + "\"", |CardOpen|)
  {
    var ps := c.Pieces();
    JoinAt(ps, 0);
    JoinAt(ps, 1);
    assert ps[..1] == [CardOpen];
    assert Join(ps[..1]) == CardOpen + Join([]);
  }

  /** The card holds its avatar and, as the whole text of its heading, its display name. */
  lemma ContributorCardShowsPerson(c: ContributorCard)
    ensures Contains(c.Render(), c.AvatarContent())
    ensures Contains(c.Render(), NameHeadingOpen + c.displayName + "</h3>")
  {
    JoinAt(c.Pieces(), 5);
    JoinAt(c.Pieces(), 7);
  }

  /** The card holds its role and its tags. */
  lemma ContributorCardShowsRole(c: ContributorCard)
    ensures Contains(c.Render(), c.role)
    ensures Contains(c.Render(), c.TagsHtml())
  {
    JoinAt(c.Pieces(), 9);
    JoinAt(c.Pieces(), 11);
  }

  /** The tags appear in their given order, one fragment each; no tags, no markup. */
  lemma ContributorTagsInOrder(c: ContributorCard)
    ensures c.tags == [] ==> c.TagsHtml() == ""
    ensures forall k :: 0 <= k < |c.tags| ==>
      OccursAt(c.TagsHtml(), TagFragment(c.tags[k]), |ConcatMap(TagFragment, c.tags[..k])|)
  {
    forall k | 0 <= k < |c.tags|
      ensures OccursAt(c.TagsHtml(), TagFragment(c.tags[k]), |ConcatMap(TagFragment, c.tags[..k])|)
    {
      ConcatMapAt(TagFragment, c.tags, k);
    }
  }

  // ---------------------------------------------------------------- CodeBlock

  datatype CodeBlock = CodeBlock(code: string, language: string)
  {
    /** The argument of the copy button's `copyToClipboard(...)` call. */
    function Payload(): string
    {
      Escaping.Escape(code)
    }

    function Pieces(): seq<string>
    {
      [ ("\n            <div class=\"bg-gray-900 " + "text-green-400 rounded-lg p-3 md:p-4 " + "font-mono text-xs md:text-sm " + "overflow-x-auto relative group\">" + "\n                <button "),
        "onclick=\"copyToClipboard('" + Payload() + "')\"",
        (" class=\"absolute top-2 right-2 " + "bg-gray-700 hover:bg-gray-600 " + "text-white px-2 py-1 rounded text-xs " + "copy-button transition-all " + "duration-300\">\n                    <i " + "class=\"fas fa-copy mr-1\"></i>Copy" + "\n                </button>" + "\n                "),
        "<pre><code class=\"language-" + language + "\">" + code + "</code></pre>",
        "\n            </div>\n        " ]
    }

    function Render(): string
    {
      Join(Pieces())
    }
  }

  /** `new CodeBlock(code, language = 'bash')`. */
  function NewCodeBlock(code: string, language: Option<string>): (b: CodeBlock)
    ensures b.code == code
    ensures b.language == (if language.Some? then language.value else "bash")
  {
    CodeBlock(code, language.GetOr("bash"))
  }

  /** The copy button carries the escaped code, which is one line with every quote
      escaped and which unescapes back to the code exactly when the code has no
      backslash followed by `n`; the `<pre>` shows the raw code under the class
      `language-` plus the language. */
  lemma CodeBlockRender(b: CodeBlock)
    ensures Contains(b.Render(), "onclick=\"copyToClipboard('" + b.Payload() + "')\"")
    ensures Contains(b.Render(), "<pre><code class=\"language-" + b.language + "\">" + b.code + "</code></pre>")
    ensures forall i :: 0 <= i < |b.Payload()| ==> b.Payload()[i] != '\n'
    ensures forall i :: 0 <= i < |b.Payload()| && b.Payload()[i] == '\'' ==> i > 0 && b.Payload()[i - 1] == '\\'
    ensures Escaping.Unescape(b.Payload()) == b.code <==> !HasPair(b.code, '\\', 'n')
  {
    JoinAt(b.Pieces(), 1);
    JoinAt(b.Pieces(), 3);
    Escaping.EscapeOutput(b.code);
    Escaping.RoundTrip(b.code);
  }

  /** A code block built without a language is tagged `language-bash`. */
  lemma CodeBlockDefaultLanguage(code: string)
    ensures NewCodeBlock(code, None).language == "bash"
    ensures Contains(NewCodeBlock(code, None).Render(), "<pre><code class=\"language-" + "bash" + "\">" + code + "</code></pre>")
  {
    CodeBlockRender(NewCodeBlock(code, None));
  }

  // ---------------------------------------------------------------- InstallationStep

  /** `stepNumber` is held as the text `${stepNumber}` produces. */
  datatype InstallationStep = InstallationStep(stepNumber: string, title: string, content: string, bgColor: string)
  {
    function Pieces(): seq<string>
    {
      [ ("\n            <div " + "class=\"installation-step rounded-2xl " + "p-6 md:p-8\">\n                <div " + "class=\"flex flex-col md:flex-row " + "items-start space-y-4 md:space-y-0 " + "md:space-x-6\">\n                    "),
        CircleOpen + bgColor + CircleMiddle + stepNumber + CircleClose,
        ("\n                    <div " + "class=\"flex-1\">\n                        "),
        ("<h3 class=\"text-xl md:text-2xl " + "font-bold mb-4 mobile-center\">") + title + "</h3>",
        "\n                        ",
        content + "\n                    </div>",
        ("\n                </div>\n            " + "</div>\n        ") ]
    }

    function Render(): string
    {
      Join(Pieces())
    }
  }

  /** The number circle's opening tag, up to where its background class goes inside
      the `class` attribute. */
  const CircleOpen := ("<div " + "class=\"flex-shrink-0 w-12 h-12 md:w-16 " + "md:h-16 ")

  /** The rest of the circle's `class` attribute and opening tag, before the number. */
  const CircleMiddle := (" text-white rounded-full flex " + "items-center justify-center text-xl " + "md:text-2xl font-bold mx-auto md:mx-0\">" + "\n                        ")

  /** The end of the number circle, right after the number. */
  const CircleClose := "\n                    </div>"

  /** `new InstallationStep(stepNumber, title, content, bgColor = 'claude-bg-primary')`. */
  function NewInstallationStep(stepNumber: string, title: string, content: string, bgColor: Option<string>): (s: InstallationStep)
    ensures s.stepNumber == stepNumber && s.title == title && s.content == content
    ensures s.bgColor == (if bgColor.Some? then bgColor.value else "claude-bg-primary")
  {
    InstallationStep(stepNumber, title, content, bgColor.GetOr("claude-bg-primary"))
  }

  /** The number circle is one `div` whose `class` attribute carries the background
      class and whose whole text is the step number. */
  lemma InstallationStepBadge(s: InstallationStep)
    ensures Contains(s.Render(), CircleOpen + s.bgColor + CircleMiddle + s.stepNumber + CircleClose)
  {
    JoinAt(s.Pieces(), 1);
  }

  /** The heading has the title, and the content follows verbatim. */
  lemma InstallationStepBody(s: InstallationStep)
    ensures Contains(s.Render(), ("<h3 class=\"text-xl md:text-2xl " + "font-bold mb-4 mobile-center\">") + s.title + "</h3>")
    ensures Contains(s.Render(), s.content + "\n                    </div>")
  {
    JoinAt(s.Pieces(), 3);
    JoinAt(s.Pieces(), 5);
  }

  /** A step built without a background uses `claude-bg-primary`. */
  lemma InstallationStepDefaultBackground(stepNumber: string, title: string, content: string)
    ensures NewInstallationStep(stepNumber, title, content, None).bgColor == "claude-bg-primary"
    ensures Contains(NewInstallationStep(stepNumber, title, content, None).Render(),
                     CircleOpen + "claude-bg-primary" + CircleMiddle + stepNumber + CircleClose)
  {
    InstallationStepBadge(NewInstallationStep(stepNumber, title, content, None));
  }

  // ---------------------------------------------------------------- Navigation

  datatype NavItem = NavItem(href: string, linkText: string)

  /** The attribute that only the mobile links carry. */
  const OnclickAttr := " onclick=\"toggleMobileMenu()\""

  /** A link's markup up to and including its `class` attribute. */
  function LinkHead(item: NavItem): seq<string>
  {
    [ "\n            <a href=\"", item.href, ("\" class=\"hover:text-orange-600 " + "transition-colors\"") ]
  }

  /** A link's markup from the end of its opening tag on. */
  function LinkTail(item: NavItem): seq<string>
  {
    [ ">", item.linkText, "</a>\n        " ]
  }

  function DesktopLink(item: NavItem): string
  {
    Join(LinkHead(item) + LinkTail(item))
  }

  function MobileLink(item: NavItem): string
  {
    Join(LinkHead(item) + [OnclickAttr] + LinkTail(item))
  }

  datatype Navigation = Navigation(items: seq<NavItem>)
  {
    function RenderDesktop(): string
    {
      ConcatMap(DesktopLink, items)
    }

    function RenderMobile(): string
    {
      ConcatMap(MobileLink, items)
    }
  }

  /** A mobile link is the desktop link with the menu-toggling `onclick` inserted
      after the class attribute, and nothing else differs. */
  lemma MobileLinkAddsOnclick(item: NavItem)
    ensures DesktopLink(item) == Join(LinkHead(item)) + Join(LinkTail(item))
    ensures MobileLink(item) == Join(LinkHead(item)) + OnclickAttr + Join(LinkTail(item))
  {
    var h, t := LinkHead(item), LinkTail(item);
    JoinAppend(h, t);
    assert h + [OnclickAttr] + t == h + ([OnclickAttr] + t);
    JoinAppend(h, [OnclickAttr] + t);
    JoinAppend([OnclickAttr], t);
    assert Join([OnclickAttr]) == OnclickAttr + Join([]);
  }

  /** Both renderings give one link per item, in item order, and the mobile one is
      longer by exactly one `onclick` attribute per item. */
  lemma NavigationRenderings(n: Navigation)
    ensures n.items == [] ==> n.RenderDesktop() == "" && n.RenderMobile() == ""
    ensures forall k :: 0 <= k < |n.items| ==>
      OccursAt(n.RenderDesktop(), DesktopLink(n.items[k]), |ConcatMap(DesktopLink, n.items[..k])|)
    ensures forall k :: 0 <= k < |n.items| ==>
      OccursAt(n.RenderMobile(), MobileLink(n.items[k]), |ConcatMap(MobileLink, n.items[..k])|)
    ensures |n.RenderMobile()| == |n.RenderDesktop()| + |n.items| * |OnclickAttr|
  {
    forall k | 0 <= k < |n.items|
      ensures OccursAt(n.RenderDesktop(), DesktopLink(n.items[k]), |ConcatMap(DesktopLink, n.items[..k])|)
      ensures OccursAt(n.RenderMobile(), MobileLink(n.items[k]), |ConcatMap(MobileLink, n.items[..k])|)
    {
      ConcatMapAt(DesktopLink, n.items, k);
      ConcatMapAt(MobileLink, n.items, k);
    }
    forall i | 0 <= i < |n.items|
      ensures |MobileLink(n.items[i])| == |DesktopLink(n.items[i])| + |OnclickAttr|
    {
      MobileLinkAddsOnclick(n.items[i]);
    }
    ConcatMapLength(DesktopLink, MobileLink, n.items, |OnclickAttr|);
  }
}
