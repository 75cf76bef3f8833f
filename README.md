# Portfolio page script — verified model

`script.js` drives a one-page portfolio site. Its logic is a handful of small
decision rules behind browser event listeners. This project models those
rules in Dafny and proves what the script promises about them:

- **Theme** (`theme.dfy`). The `data-theme` marker on the root element, the
  `preferred-theme` storage entry, the `prefers-color-scheme: dark` media
  query and the theme switch.
  - `ThemeState` holds the state as a value. One function per handler
    (`AfterApplyTheme`, `AfterLoadInitialTheme`, …) specifies that handler's
    effect.
  - The class `ThemeController` keeps the same fields and updates them in
    place. Each method is proved to match its function.
  - Lemmas cover event sequences: well-formedness is kept, a stored choice
    wins over system changes, and with nothing stored the page follows the
    system.
- **Navbar** (`navbar.dfy`). The `scrolled` class follows the rule
  `scrollY > 50`.
- **Project filter** (`filter.dfy`). A filter-button click leaves exactly
  that button active. A card is shown iff the filter is `all` or equals the
  card's category. The class `FilterBar` holds the button flags and the card
  visibilities in arrays and updates them with loops.
- **Scrollspy** (`scrollspy.dfy`, `flags.dfy`, `sequences.dfy`).
  - The sections are scanned left to right for the smallest `|top − 80|`. A
    strict comparison makes the first minimum win.
  - The `idToNavLink` map is built from the links' `href`s.
  - `setActiveLink` clears every active link and marks one.
  - The class `NavLinks` holds the links' active flags in an array.
- **Contact form** (`mailto.dfy`, `uri.dfy`). The submit handler builds a
  `mailto:` URI from the form's four fields.
  - `encodeURIComponent` is modelled as section 19.2.6.4 of ECMA-262 (2023
    edition) defines it, with full UTF-8 (RFC 3629).
  - It is proved inverse to `decodeURIComponent` (section 19.2.6.2 of the
    same edition).
  - The link is proved to match the `mailto` syntax of section 2 of RFC 6068.
  - Parsing the link back the way a mail client does returns the recipient,
    the subject and the composed body.

Modelling choices:

- The browser's values are parameters:
  - the stored entry is an `Option<string>`;
  - the media query is a `bool`;
  - the switch is an `Option<bool>` (absent, or its `checked` state);
  - the elements are sequences of their attributes.
- JavaScript truthiness of a string (`current ?`, `!stored`, `x || y`,
  `if (bestId)`) is written out as "present and non-empty" (`Theme.Truthy`).
- Offsets (`scrollY`, `rect.top`) are integers.
- Where the script and its documentation differ, the model follows the
  script:
  - The stored entry may hold any string, not only `light` or `dark`. An
    invalid value leaves the marker cleared at load.
  - The system listener tests only whether the stored value is truthy,
    not whether it is valid. With an invalid non-empty value stored, it
    leaves the marker alone; the marker is already cleared, so the page
    still follows the system.
  - An empty stored string counts as nothing stored.
- `toggleTheme` is defined, but nothing in script.js calls it. It is modelled
  anyway, and `SwitchAgreesWithToggle` shows that the switch handler does the
  same thing when the switch is in sync.
- The theme switch is set only when the content loads. A later system
  change can leave it showing the other theme (`SwitchCanGoStale`).
- In the filter, a button without `data-filter` compares equal to cards
  without `data-category` (the two `null`s), and the model keeps that.
- The scrollspy leaves the previously active link active when the nearest
  section has no link (`ScrollWithoutTargetIsNoOp`).
- Timers from one filter click can overtake the next click. Suppose a click on
  a category button is followed within 300 ms by a click on `all`. The first
  click's pending timer that sets `display = 'none'` (script.js:125-127) fires
  after the second click's `display = 'block'` (script.js:117). A card of
  another category then ends hidden although `all` is active.
  `FilterBar.Click` describes a click whose timers settle before the next
  click.
- The scrollspy's tie-break holds in `sectionIds` order even when some
  sections are missing: `PresentSections` keeps the list order, and
  `EarlierSectionIsFarther` combines this with the nearest-section rule.
- A click marks its link optimistically (`NavLinks.ClickLink`). The next
  recomputation can move the mark.
- ECMA-262's unescaped set (letters, digits, `-_.!~*'()`) is not RFC 3986's
  unreserved set (letters, digits, `-._~`). The model uses ECMA-262's, which
  is what the script gets.

## Model

| member | source | states |
|---|---|---|
| Theme.SystemTheme | script.js:13 | the system theme is `light` or `dark`, and `dark` exactly when the media query matches |
| Theme.Flip | script.js:27 | the next theme is concrete; it differs from a concrete current theme, and anything not `dark` goes to `dark` |
| Theme.AfterApplyTheme | script.js:5-11 | the marker becomes the argument iff it is `light` or `dark`, and is cleared otherwise; storage, media query and switch are unchanged |
| Theme.AfterLoadInitialTheme | script.js:15-23 | a stored `light` or `dark` becomes the marker and the effective theme; any other stored value (absent, empty, invalid) leaves the marker cleared, so the effective theme is the system theme |
| Theme.AfterToggleTheme | script.js:25-30 | marker and storage both become the flip of the previous effective theme, the state is well-formed, and an effective `light` or `dark` changes to the other |
| Theme.AfterSystemChange | script.js:32-38 | with nothing truthy stored, the marker is cleared and the page follows the new system preference; with a non-empty stored value, the marker is unchanged |
| Theme.AfterContentLoaded | script.js:40-46 | after loading the initial theme, a present switch is checked iff the effective theme is `dark`; without a switch it stays absent |
| Theme.AfterSwitchFlip | script.js:47-51 | the switch flips, and marker and storage both become `dark` iff it is now checked, else `light`; without a switch nothing changes |
| Theme.LoadedIsWellFormed | script.js:15-23 | from a well-formed stored entry, loading gives a state whose marker and storage are absent or concrete |
| Theme.Effective | script.js:45 | the effective theme is the marker when it is set and non-empty, otherwise the system theme |
| Theme.Step | script.js:5-53 | one handler run keeps a well-formed state well formed, changes the system preference only on a media-query change, and never adds or removes the switch |
| Theme.Run | script.js:5-53 | over any event sequence the switch stays present or absent, and without media-query changes the system preference is unchanged |
| Theme.RunPreservesWellFormed | script.js:5-53 | from a well-formed state, every sequence of handler runs keeps the marker and storage absent or concrete |
| Theme.ToggleTwice | script.js:25-30 | from a well-formed state, toggling twice restores the effective theme |
| Theme.SwitchAgreesWithToggle | script.js:25-30 | when the switch shows the effective theme, flipping it writes the same marker and storage as `toggleTheme` |
| Theme.StoredChoiceOverridesSystem | script.js:32-38 | after a stored concrete choice has been applied, any number of system changes leave the marker and the effective theme unchanged |
| Theme.NothingStoredFollowsSystem | script.js:32-38 | with nothing truthy stored, after a non-empty sequence of system changes the effective theme is the system theme of the last change |
| Theme.SwitchCanGoStale | script.js:32-51 | a concrete run where the switch, set at load, still shows `light` after the system turns dark, and flipping it then leaves the effective theme unchanged |
| Theme.ThemeController.ApplyTheme | script.js:5-11 | the controller's new state is `AfterApplyTheme` of its old state |
| Theme.ThemeController.LoadInitialTheme | script.js:15-23 | the controller's new state is `AfterLoadInitialTheme` of its old state |
| Theme.ThemeController.ToggleTheme | script.js:25-30 | the controller's new state is `AfterToggleTheme` of its old state |
| Theme.ThemeController.OnSystemChange | script.js:32-38 | the controller's new state is `AfterSystemChange` of its old state |
| Theme.ThemeController.OnContentLoaded | script.js:40-46 | the controller's new state is `AfterContentLoaded` of its old state |
| Theme.ThemeController.OnSwitchFlipped | script.js:47-51 | the controller's new state is `AfterSwitchFlip` of its old state |
| Navbar.ScrolledAfter | script.js:76-84 | with a navbar, `scrolled` holds iff the offset exceeds 50; without one the class is unchanged |
| Navbar.ScrollIdempotent | script.js:79-83 | handling the same offset twice gives the same class as once |
| Navbar.ScrollForgetsHistory | script.js:79-83 | with a navbar, the class depends on the latest offset only |
| Navbar.NavbarState.OnScroll | script.js:76-84 | the new class is `ScrolledAfter` of the old one and the offset |
| ProjectFilter.Visibility | script.js:115-129 | one flag per card, true iff the filter is `all` or equals the card's category |
| ProjectFilter.AllShowsEveryCard | script.js:116 | the `all` filter shows every card |
| ProjectFilter.FilterSelectsItsCategory | script.js:116 | any other filter shows exactly the cards of that category |
| ProjectFilter.FilterBar.Click | script.js:108-131 | after a click, exactly the clicked button is active and every card's visibility is `Visibility` of the button's filter; nothing else changes |
| Flags.FirstSet | script.js:188 | `querySelector` on the active class: none iff no link is active, else the first active index |
| Flags.FirstSetIsOnly | script.js:188-189 | when at most one link is active and link k is the first active one, only link k is active |
| Scrollspy.NearestIndex | script.js:199-209 | the chosen section has the smallest distance to offset 80, and every earlier section is strictly farther (the first minimum wins) |
| Scrollspy.NearestUnique | script.js:205 | at most one section satisfies that rule, so the choice is determined |
| Scrollspy.NearestExample | script.js:199-209 | for offsets 100, 400 and 900 the first section is chosen |
| Scrollspy.SelectNearest | script.js:199-209 | the selection loop returns the id of `NearestIndex`, and nothing iff there are no sections |
| Scrollspy.TrackedLinks | script.js:177-183 | an id is tracked iff it is listed and some link's `href` is `#id`; it maps to the first such link |
| Scrollspy.BuildLinkMap | script.js:180-183 | the loop builds exactly `TrackedLinks` |
| Scrollspy.PresentSections | script.js:194-196 | a listed id is kept iff its element exists; the list is no longer than the id list; for a list of distinct ids the kept ids are distinct and stay in list order |
| Scrollspy.EarlierSectionIsFarther | script.js:194-208 | whichever sections exist, a section that comes before the chosen one in `sectionIds` order is strictly farther from offset 80 |
| Scrollspy.AllPresentKeepsOrder | script.js:194-196 | when every section exists, the sections are the id list in order |
| Scrollspy.AfterSetActive | script.js:185-192 | an untracked id changes nothing; an already active link changes nothing; otherwise only the id's link is active; at most one active link is preserved |
| Scrollspy.AfterScroll | script.js:199-211 | a recomputation keeps the number of links, changes nothing without sections, and keeps at most one link active |
| Scrollspy.ScrollActivatesNearest | script.js:199-211 | with at most one link active, a recomputation leaves only the nearest section's link active when it has one |
| Scrollspy.ScrollWithoutTargetIsNoOp | script.js:210 | with no sections, or when the nearest section has no link, a recomputation changes no link |
| Scrollspy.NavLinks.constructor | script.js:177-196 | the tracked map is `TrackedLinks` of the fixed id list and the links, and the sections are `PresentSections` |
| Scrollspy.NavLinks.FirstActive | script.js:188 | the scan returns `FirstSet` of the active flags |
| Scrollspy.NavLinks.ActivateOnly | script.js:190-191 | after clearing every active link and marking link k, only link k is active |
| Scrollspy.NavLinks.SetActiveLink | script.js:185-192 | the new flags are `AfterSetActive` of the old ones |
| Scrollspy.NavLinks.UpdateActiveOnScroll | script.js:199-211 | the new flags are the old ones after a recomputation over the sections at the given offsets |
| Scrollspy.NavLinks.ClickLink | script.js:69-70 | after a link click exactly that link is active |
| UriEncoding.Utf8 | script.js:144-146 | one to four octets, a single octet iff the code point is below 0x80, continuation octets in 0x80–0xBF |
| UriEncoding.Utf8RoundTrip | script.js:144-146 | decoding the UTF-8 octets of a character gives the character back |
| UriEncoding.EncodeURIComponent | script.js:144-146 | `encodeURIComponent` emits only unescaped characters and `%XX` triples with upper-case hexadecimal digits, and never shortens its input |
| UriEncoding.EncodedCharacters | script.js:144-146 | every output character is unescaped or `%`, so `&`, `=`, `?` and `#` never appear |
| UriEncoding.EncodeConcat | script.js:144-146 | encoding distributes over concatenation |
| UriEncoding.EncodeUnescapedIsIdentity | script.js:144-146 | a string of unescaped characters encodes to itself |
| UriEncoding.DecodeEncode | script.js:144-146 | `decodeURIComponent` of `encodeURIComponent(s)` is `s` |
| UriEncoding.EncodeInjective | script.js:144-146 | distinct strings have distinct encodings |
| UriEncoding.DecodeURIComponent | script.js:144-146 | `decodeURIComponent` never lengthens a string, and a string without `%` decodes to itself |
| Mailto.EncodedIsQChars | script.js:144-146 | an encoded value is a sequence of RFC 6068 `qchar`s |
| Mailto.RecipientIsAddrSpec | script.js:144 | the fixed recipient is an `addr-spec` of RFC 6068 |
| Mailto.RecipientNeedsNoEscaping | script.js:144 | the recipient holds no `?`, `&` or `%`, so it needs no escaping and decodes to itself |
| Mailto.BodyTemplate | script.js:146 | the body is 25 characters longer than its three inputs together, starts with `Name: ` and the name, and ends with the message |
| Mailto.MailtoLink | script.js:144-146 | the link is the RFC 6068 `mailto` form for the recipient with header fields `subject` and `body`, in that order, holding the encoded subject and the encoded body template |
| Mailto.MailtoLinkIsMailtoUri | script.js:144-146 | for all form inputs, the link is a `mailto` URI of section 2 of RFC 6068 |
| Mailto.MailtoRoundTrip | script.js:144-146 | parsing the link gives the recipient and the fields `subject` = the subject and `body` = the template body, for all inputs |

## Left out

- The reveal-on-scroll `IntersectionObserver` (script.js:154-174) depends on browser geometry with a fractional threshold.
- The smooth scrolling of anchor links (script.js:89-102) is floating-point geometry and an animated `scrollTo`.
- The filter's `setTimeout` fades (100 and 300 ms) are not modelled.
- ProjectFilter.FilterBar.Click: its contract assumes the timers of one click settle before the next click. Timers still pending from an earlier click can hide a card after a later click shows it; that race is not modelled.
- The `requestAnimationFrame` throttling through `ticking` (script.js:213-225) is scheduling, not logic. The `load` and `resize` listeners (script.js:227-233) are registrations; each one is a call of `NavLinks.UpdateActiveOnScroll`.
- The mobile menu toggle (script.js:61) and the menu close on a link click (script.js:67): each is a bare class flip or removal.
- Scrollspy.NavLinks.ClickLink: the link click listener is registered only when both the menu button and the link list exist (script.js:59). The model leaves that guard to the caller.
- The navigation to the link and the form reset (script.js:148-149) are I/O.
- DOM queries, `localStorage` and `matchMedia` are replaced by parameters and fields, so the model does not see them as APIs.
- Navbar.ScrolledAfter: the offset is an integer; the browser's `scrollY` may be fractional.
- Scrollspy.NavLinks.UpdateActiveOnScroll: the section offsets are an integer parameter in place of `getBoundingClientRect().top`, which may be fractional.
- UriEncoding.Utf8: lone surrogates, for which `encodeURIComponent` throws `URIError`, are not modelled, because a Dafny `char` is always a Unicode scalar value.
- Mailto.MailtoLinkIsMailtoUri: section 5 of RFC 6068 asks for line breaks in a body to be written `%0D%0A`. The script's template uses `\n`, so the link carries `%0A`. The model keeps what the script produces and does not claim the section 5 form.
