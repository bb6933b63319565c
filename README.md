# SuperClaude website scripts, modelled in Dafny

This project models the client-side scripts of the SuperClaude website. It has
four modules:

- `Components` (components.dfy) covers the HTML renderers of `js/components.js`:
  `BadgeComponent`, `FeatureCard`, `ContributorCard`, `CodeBlock`,
  `InstallationStep` and `Navigation`. Each class is an immutable record, so each
  is a datatype here. Each has a member function that builds the same string as
  the template literal, whitespace included. `map(...).join('')` becomes
  `Strings.ConcatMap`. A template literal becomes `Strings.Join` over its pieces.
  Defaulted constructor parameters become `New...` functions taking an `Option`.
- `Escaping` (escaping.dfy) covers the copy-button payload codec. The escape is two
  global replacements in `CodeBlock.render`: `'` becomes `\'`, then a newline
  becomes backslash-`n`. The unescape is two global replacements at the start of
  `copyToClipboard`: backslash-`n` becomes a newline, then `\'` becomes `'`. The
  main result is `Escaping.RoundTrip`. Unescaping the escape gives back the code
  if and only if the code contains no backslash immediately followed by `n`.
- `Page` (page.dfy) covers the page logic of `js/main.js`.
  - `Document` is a class. Its fields stand for the parts of the DOM the
    handlers touch:
    - the mobile menu;
    - the `active` flags of the navigation links;
    - the offsets of elements with ids;
    - the scroll requests made so far;
    - the children of `document.body`;
    - the system clipboard;
    - the contributor-count element.
  - Each handler is a method on `Document`. Its `ensures` ties the new state to a
    pure rule on the old state (`Toggled`, `AfterKey`, `AfterClick`, `Closed`,
    `OnlyActive`, `ScrollTop`, `LegacyMessage`, `CountText`, `FindById`), and
    lemmas state the properties of those rules. `Without` is not named in any
    handler's contract: the fallback copy uses it to remove its buffer again,
    and `FallbackCopy` and `CopyToClipboard` state the resulting children directly.
  - `ScrollGate` is the `ticking` flag that limits scroll handling to one
    pending animation frame.
- `Strings` (strings.dfy) holds the shared helpers:
  - `String.prototype.replace` with a global literal pattern;
  - character and pair counting;
  - occurrence of a substring;
  - template joining;
  - the decimal text of a non-negative number, with its inverse.

Three behaviours of the code are worth stating up front, because a reader
might expect otherwise:

- **Round trip.** The unescape in `copyToClipboard` is meant to undo the escape
  in `CodeBlock.render`. It also turns a backslash-`n` that was already in the
  code into a newline, so the round trip holds exactly for code without such a
  pair (`Escaping.RoundTrip`, `Escaping.BackslashNBecomesNewline`).
- **Tags.** Contributor tags are mapped over in array order, so they are a
  sequence, and repeated tags are rendered repeatedly.
- **Feature card description.** The constructor stores it, but `render` never
  reads it (`Components.FeatureCardIgnoresDescription`).

Two fields are held differently from the source. A navigation item's `label` is
called `linkText`, because `label` is a reserved word in Dafny. An installation
step's `stepNumber` is held as the text that `${stepNumber}` produces.

## Model

| member | source | states |
|---|---|---|
| Escaping.Escape | js/components.js:108 | the escape leaves no raw newline, and the code's newlines become backslash-`n` pairs beside those the code had; its per-character form is `Escaping.EscapeCons` and its round trip `Escaping.RoundTrip` |
| Escaping.Unescape | js/main.js:107 | the unescape turns every backslash-`n` pair into a newline and keeps the other newlines; its inverse properties are `Escaping.UnescapeNewlinesInverse` and `Escaping.UnescapeQuotesInverse` |
| Escaping.EscapeCons | js/components.js:108 | the escape works one character at a time: a quote becomes backslash-quote, a newline becomes backslash-`n`, anything else stays |
| Escaping.EscapeOutput | js/components.js:108 | the payload has no raw newline; every quote in it is preceded by a backslash and none comes first; its length is the code's length plus its number of quotes and newlines |
| Escaping.UnescapeNewlinesInverse | js/main.js:107 | the newline pass of the unescape undoes the newline pass of the escape on text without a backslash-`n` pair |
| Escaping.UnescapeQuotesInverse | js/main.js:107 | the quote pass of the unescape undoes the quote pass of the escape on every string |
| Escaping.RoundTripNewlines | js/main.js:107 | after escape and unescape, the text has one newline more for each backslash-`n` pair of the code |
| Escaping.RoundTrip | js/main.js:107 | unescape after escape gives back the code if and only if the code has no backslash immediately followed by `n` |
| Escaping.RoundTripWithoutBackslash | js/main.js:107 | code without any backslash always survives the round trip |
| Escaping.BackslashNBecomesNewline | js/main.js:107 | code holding a backslash-`n` pair never survives the round trip |
| Components.BadgeComponent.Generate | js/components.js:15-21 | the badge template; what it embeds is stated by `Components.BadgeEmbedsConfig` |
| Components.BadgeEmbedsConfig | js/components.js:15-21 | the badge holds the configured url, image source and alternative text verbatim; a missing field appears as the text `undefined` |
| Components.ItemFragmentFields | js/components.js:36-41 | a feature row shows the command inside `<code>` and the description inside the grey `<span>` |
| Components.FeatureCardRowsInOrder | js/components.js:36-41 | the rows are concatenated in item order, each starting where the previous ones end; no items give an empty list |
| Components.FeatureCard.Render | js/components.js:35-54 | the feature card template; its fields and rows are stated by `Components.FeatureCardFields`, `Components.FeatureCardRowsInOrder` and `Components.ItemFragmentFields` |
| Components.NewFeatureCard | js/components.js:28-33 | the constructor stores its arguments, and missing items become the empty list |
| Components.FeatureCardFields | js/components.js:43-53 | the card shows its icon class in an `<i>`, its title before the closing `</h3>`, and the row markup inside the list container |
| Components.FeatureCardDefaultItems | js/components.js:28-32 | a card built without items has no items and empty row markup |
| Components.FeatureCardIgnoresDescription | js/components.js:43-53 | changing the description never changes the card's markup |
| Components.ContributorCard.Render | js/components.js:69-95 | the contributor card template; its link, avatar, name, role and tags are stated by `Components.ContributorCardTargets`, `Components.ContributorCardOpensWithLink`, `Components.ContributorCardShowsPerson`, `Components.ContributorCardShowsRole` and `Components.ContributorTagsInOrder` |
| Components.NewContributorCard | js/components.js:61-67 | the constructor stores its arguments; missing tags become the empty list and a missing placeholder flag means a real card |
| Components.ContributorCardDefaults | js/components.js:61-67 | a contributor card built from three arguments is a real card without tags that links to the user's GitHub profile |
| Components.ContributorCardTargets | js/components.js:70-79 | a placeholder links to `#`, has an empty avatar url and shows the users icon; a real card links to `https://github.com/` plus the user name, and its `<img>` has exactly that link plus `.png` as the quoted `src` and exactly the display name as the quoted `alt` |
| Components.ContributorCardOpensWithLink | js/components.js:81-83 | the card markup begins with the card container and a link whose quoted `href` is exactly the profile url |
| Components.ContributorCardShowsPerson | js/components.js:84-87 | the card holds the avatar markup, and its `<h3>` heading has the display name as its whole text |
| Components.ContributorCardShowsRole | js/components.js:88-90 | the card holds the role and the tag markup |
| Components.ContributorTagsInOrder | js/components.js:73-75 | the tags are concatenated in their order, one fragment each; no tags give empty markup |
| Components.CodeBlock.Render | js/components.js:107-118 | the code block template; its payload and code element are stated by `Components.CodeBlockRender` |
| Components.NewCodeBlock | js/components.js:102-105 | the constructor stores the code, and a missing language becomes `bash` |
| Components.CodeBlockRender | js/components.js:107-117 | the copy button calls `copyToClipboard` with the escaped code; the payload has no raw newline and only escaped quotes, and it unescapes to the code exactly when the code has no backslash-`n` pair; the `<pre><code>` shows the raw code under the class `language-` plus the language |
| Components.CodeBlockDefaultLanguage | js/components.js:102-105 | a code block built without a language is tagged `language-bash` |
| Components.InstallationStep.Render | js/components.js:132-146 | the installation step template; its fields are stated by `Components.InstallationStepBadge` and `Components.InstallationStepBody` |
| Components.NewInstallationStep | js/components.js:125-130 | the constructor stores its arguments, and a missing background becomes `claude-bg-primary` |
| Components.InstallationStepBadge | js/components.js:136-138 | the step contains the number circle as one `div`: its `class` attribute carries the background class between the size classes and `text-white`, and its whole text is the step number |
| Components.InstallationStepBody | js/components.js:139-142 | the step shows its title in the heading and its content verbatim |
| Components.InstallationStepDefaultBackground | js/components.js:125-130 | a step built without a background uses `claude-bg-primary`, and its number circle carries that class |
| Components.Navigation.RenderDesktop | js/components.js:157-161 | one desktop link per item; stated by `Components.NavigationRenderings` |
| Components.Navigation.RenderMobile | js/components.js:163-167 | one mobile link per item; stated by `Components.NavigationRenderings` and `Components.MobileLinkAddsOnclick` |
| Components.MobileLinkAddsOnclick | js/components.js:157-167 | a mobile link is the desktop link with `onclick="toggleMobileMenu()"` inserted after the class attribute, and nothing else differs |
| Components.NavigationRenderings | js/components.js:157-167 | both renderings give one link per item in item order; no items give empty markup; the mobile markup is longer by one `onclick` attribute per item |
| Page.Toggled | js/main.js:62-67 | toggling flips the `hidden` class of a present menu and leaves a missing menu missing |
| Page.ToggleTwice | js/main.js:62-67 | toggling twice restores the menu; with no menu element toggling changes nothing |
| Page.Document.ToggleMobileMenu | js/main.js:62-67 | the new menu state is the toggle of the old one |
| Page.AfterKey | js/main.js:40-44 | after a key press the menu is hidden exactly when it was hidden before or the key is Escape |
| Page.EscapeKeyRule | js/main.js:40-44 | Escape on an open menu hides it; Escape on a hidden menu and any other key leave it unchanged |
| Page.Document.OnKeyDown | js/main.js:31-44 | the key rule applies only when both the menu button and the menu exist; otherwise nothing changes |
| Page.AfterClick | js/main.js:33-37 | after a click the menu is hidden exactly when it was hidden before or the target is outside both the button and the menu |
| Page.OutsideClickRule | js/main.js:33-37 | a click outside both hides the menu; a click inside either leaves it unchanged |
| Page.Document.OnDocumentClick | js/main.js:31-37 | the click rule applies only when both the menu button and the menu exist; otherwise nothing changes |
| Page.OnlyActive | js/main.js:48-55 | the flags after a navigation click: exactly the clicked link is active |
| Page.Document.OnNavLinkClick | js/main.js:48-55 | after clicking link `k`, link `k` is the only active link and the number of links is unchanged |
| Page.TargetId | js/main.js:79 | the target id is the link's `href` without its leading `#` |
| Page.ScrollTop | js/main.js:83-85 | the scroll position is the target's offset minus the 80-unit header, unclamped, so it is negative for targets near the top |
| Page.Closed | js/main.js:93-96 | closing hides a present menu and leaves a missing menu missing |
| Page.Document.TargetTop | js/main.js:80 | the lookup finds an offset exactly for a non-empty id that some element has |
| Page.Document.OnAnchorClick | js/main.js:77-97 | with a target, one scroll to its offset minus 80 is added and the menu is closed; without one, neither the scrolls nor the menu change |
| Page.FindById | js/main.js:159 | the lookup finds the first node with the id, and finds nothing exactly when no node has it |
| Page.FindByIdAppend | js/main.js:135 | appending a node without the id does not change the lookup |
| Page.Without | js/main.js:151 | removing a child takes exactly that one node out of the children |
| Page.WithoutAppended | js/main.js:135-151 | removing the node that was appended gives back the children it was appended to, followed by whatever came after it |
| Page.Document.ShowCopyFeedback | js/main.js:157-182 | an existing feedback element is reused and the body is unchanged; otherwise a new `div` with id `copy-feedback` is appended; either way it shows the message, and no other element changes |
| Page.LegacyMessage | js/main.js:140-148 | the legacy copy reports `Copied to clipboard!` exactly when the copy command returns true, and `Copy failed. Please copy manually.` otherwise |
| Page.Document.FallbackCopy | js/main.js:126-152 | the clipboard gets the text exactly when the copy command returns true; the feedback shows the outcome; the textarea is gone again on every path, so the body changes only by a newly created feedback element |
| Page.Document.CopyToClipboard | js/main.js:105-121 | the clipboard gets the unescaped payload when the clipboard write resolves or the fallback succeeds; the feedback message matches the path taken; the body changes only by a newly created feedback element |
| Page.CountText | js/main.js:227-236 | the count text is never empty; what it says is stated by `Page.CountTextMeaning` |
| Page.CountTextMeaning | js/main.js:223-236 | an OK response shows the count in decimal followed by `+`, and the count can be read back from it; every failure shows exactly `Many`, which no count ever shows |
| Page.Document.FetchContributorCount | js/main.js:221-238 | the count element gets the text for the request's outcome; with no count element nothing is written |
| Page.ScrollGate.RequestScrollUpdate | js/main.js:319-324 | a scroll requests an animation frame only when none is pending; afterwards exactly one frame is pending |
| Page.ScrollGate.RunFrame | js/main.js:314-317 | running the pending frame clears `ticking`, leaving no frame pending |
| Strings.ReplaceAll | js/components.js:108 | `replace` with a global literal pattern, scanning left to right without overlaps; a one-character replacement works on the halves of a string separately (`Strings.ReplaceCharAppend`) and a two-character one step by step (`Strings.ReplacePairStep`) |
| Strings.ReplaceCharAppend | js/components.js:108 | a one-character global replacement of a concatenation is the concatenation of the replacements |
| Strings.ConcatMap | js/components.js:36-41 | `map(...).join('')`; each fragment sits right after the fragments before it (`Strings.ConcatMapAt`) |
| Strings.ConcatMapAt | js/components.js:36-41 | the fragment of element `k` starts where the fragments of the elements before it end |
| Strings.Decimal | js/main.js:230 | the text of a count is a non-empty string of digits with no leading zero |
| Strings.DecimalRoundTrip | js/main.js:230 | the decimal text of a count denotes that count |

## Left out

- Event-listener registration and the DOM lookups that find the menu button and
  the menu. Each handler is a method, and the presence of the button and the menu
  is a field of `Document`.
- Whether a click target lies inside the menu button or the menu. The click
  handler receives this as two flags instead of walking the DOM.
- Elements below `document.body`. `FindById` looks only among the body's
  children, which is where the feedback element is created. Target offsets are
  a map from id to `offsetTop`.
- `preventDefault` on in-page links and the browser's smooth scroll animation.
  The model records the requested scroll position.
- The network request, Promises and `async`/`await` in `fetchContributorCount`
  and in the clipboard write. Each is a parameter naming how the request or
  write ended, and the continuation runs at once. No interleaving of other
  events with a pending request is modelled.
- `navigator.clipboard`, `window.isSecureContext`, `document.execCommand`, focus
  and selection. Each is a parameter naming its outcome (`ClipboardApi`,
  `ExecOutcome`).
- The textarea's inline positioning styles and the feedback element's inline CSS.
  These are presentation.
- The feedback element's timed slide-out after 3000 ms and its removal 300 ms
  later. Overlapping calls during that window are left out too. Timers are not
  modelled.
- Logging with `console.error` and `console.log`.
- `setupCopyButtons`. It installs keyboard activation and `tabindex` on the copy
  buttons, both of which are accessibility wiring.
- `setupAccessibility`: the skip link, the main landmark and the `aria-label`s.
  These are DOM decoration with no statable result.
- `initializeApp` and the `DOMContentLoaded` hook. They only call the setup
  functions in order.
- Lazy image loading with `IntersectionObserver`. This is a browser service.
- `requestAnimationFrame` scheduling: the browser runs a `ScrollGate` frame
  through `RunFrame`. Only the `ticking` gate is modelled.
- `debounce` and `throttle`. These are timer-based and are not used by the page.
- How a browser decodes the `onclick="copyToClipboard('...')"` attribute as a
  JavaScript string literal before `copyToClipboard` runs. The model applies the
  two codec functions directly.
- HTML well-formedness of the rendered markup, and the missing HTML escaping of
  field values. Values are pasted in verbatim, as in the source.
- The exact character content of the Tailwind and Font Awesome class lists. Each
  template's text is reproduced, but the lemmas locate only the interpolated
  values and the markup around them.
- Page.Document.FetchContributorCount: the contributors array becomes its length
  alone. The `per_page=100` cap on that length is not modelled. Nor is an OK
  response whose JSON is not an array, for which the source shows `undefined+`.
- `removeChild` of a node that is not a child, which throws `NotFoundError` in the
  DOM. `Page.Without` requires the node to be a child, and the one call removes
  the textarea that was just appended.
- A single `getElementById`. Scroll targets are looked up in `anchors`
  (`Page.Document.TargetTop`) and the feedback element among the body's children
  (`Page.FindById`). The two are not kept consistent, so a link to
  `#copy-feedback` does not see a feedback element created by a copy.
