# Section navigator and chat relay of a portfolio site, in Dafny

This project models the two pieces of decision logic in a personal portfolio website and proves properties about them:

- **The section navigator** (`js/main.js`). The landing page holds several content sections and shows them one at a time. It shows a section when the visitor clicks a decorative keycap hotspot or a link in the sticky navigation bar. The navigator highlights the matching links. The scroll position of the content container decides whether the sticky nav, the mobile menu toggle and the two scroll arrows are shown. A mobile hamburger menu is opened and closed by the toggle, by link clicks, by clicks outside the menu, and by a debounced resize handler.
- **The chat relay** (`api/analyze.php`). A server-side script that refuses a request when the server has no API key or the body lacks `messages` or `model`. Otherwise it forwards `model`, `messages`, `temperature` (default 0.3) and `max_tokens` (default 500) to the completion API, authenticated with the key as a bearer token, and returns the upstream's status and body unchanged.

Files:

- `optional.dfy`: module `Optional`, the `Option` type. `None` stands for JavaScript's `null` and for an unset environment variable (`getenv` returns `false`).
- `hotspot.dfy`: module `Hotspot`. `String.prototype.includes` as `Contains`, and the keycap class-string classification.
- `navigator.dfy`: module `Navigator`. The class `Page` holds the page's DOM state as fields: sections and links as sequences of records, and one boolean per CSS class or display flag the handlers toggle. It has one method per event handler. Pure functions on sequences (`FirstWithId`, `WithDisplay`, `Highlight`, `ShownSections`, `ShownLinks`, `ShownEntrances`) specify what `showSection` and `updateActiveNavLink` compute. The lemmas about them state the showSection and highlighting properties. Each method's field-level `modifies` frame lists exactly the fields it may change.
- `relay.dfy`: module `Relay`. The request gate as a pure function from an optional key and a decoded JSON value to a refusal or a forward request. The upstream API is a function parameter.

Timers are explicit steps. Each call of `updateScrollArrows` queues a 200 ms timer in `pendingArrows`. None of them is ever cancelled, and they all have the same delay, so they fire in queue order through `ArrowTimerElapsed`. The resize handler keeps one timer slot, `resizePending`; a new resize event replaces a pending timer. `ResizeTimerElapsed(width)` fires it with the viewport width at firing time, because the timer callback reads `window.innerWidth` when it runs. Geometry is integers: the content container's bounding-box top and bottom, and the viewport width.

Some behaviours of the code are easy to misread; the model follows the code:

- Showing an unknown section id is not a no-op. The hide loop runs before the lookup, so every section ends up hidden and the links are left alone (`ShowUnknownSection`).
- The two arrows can be visible together. A quick scroll into the content area and back out, within the 200 ms delay, leaves both timers pending. When both fire, both arrows are visible (`ArrowsBothVisibleAfterQuickReturn`).
- An API key equal to `"0"` is refused like a missing one. `!$apiKey` is true for PHP's falsy string `"0"` as well as for `false` and `""` (`ZeroKeyIsMissing`).
- Clicking a nav link whose section does not exist still highlights that link. The nav-link handler calls `updateActiveNavLink` itself after `showSection` (`Navigator.Page.ClickNavLink`).
- A failed upstream transfer is answered 200, not relayed as an error. curl reports status 0, and `http_response_code(0)` sets nothing, so the default 200 stays; the body is empty (`Relay.FailedTransferAnswersOk`).

## Model

| member | source | states |
|---|---|---|
| `Hotspot.Contains` | js/main.js:131-137 | `includes`: the empty string occurs in every string, a string occurs in itself, and a match needs a string at least as long as the marker |
| `Hotspot.ContainsIff` | js/main.js:131-137 | the scan used for `includes` succeeds exactly when the substring occurs at some index |
| `Hotspot.HotspotSection` | js/main.js:128-139 | the section chosen is the one whose marker is the first, in the order top-about, top-projects, mid-experience, bottom-contact, to occur in the class string; none exactly when no marker occurs |
| `Hotspot.AboutHasPriority` | js/main.js:131-132 | a class string containing `top-about` anywhere opens `about`, whatever other markers it has |
| `Hotspot.NoMarkerNoSection` | js/main.js:128-139 | a class string with no marker at any index yields no section |
| `Hotspot.BothAboutAndProjects` | js/main.js:131-134 | a wrapper classed with both `top-about` and `top-projects` opens `about` |
| `Navigator.ShouldShowNav` | js/main.js:56 | inside the content area exactly when the content container's box spans both the 100 px and the 200 px viewport lines |
| `Navigator.IsMobile` | js/main.js:57 | the mobile test `<= 768` is exactly the negation of the resize handler's desktop test `> 768`, so no width is both |
| `Navigator.FirstWithId` | js/main.js:154-155 | the lookup finds the first section in document order with the id, and finds none exactly when no section has it |
| `Navigator.FirstWithIdIgnoresDisplay` | js/main.js:148-155 | looking a section up after the hide loop gives the same answer as before it, since lookup reads only ids |
| `Navigator.WithDisplay` | js/main.js:149-156 | the sections keep their ids and exactly index `k` is displayed |
| `Navigator.WithDisplayCount` | js/main.js:149-156 | exactly one section is displayed when `k` is an index, none otherwise |
| `Navigator.WithDisplayThenShow` | js/main.js:149-156 | hiding all sections and then displaying section `k` gives the sections with only `k` displayed |
| `Navigator.Highlight` | js/main.js:98-105 | every link keeps its target, and a link is active exactly when its `data-section` equals the argument |
| `Navigator.HighlightForgetsPrevious` | js/main.js:100-104 | the result depends only on the links' targets, so no earlier highlight survives |
| `Navigator.HighlightIdempotent` | js/main.js:98-105 | highlighting twice for the same section is highlighting once |
| `Navigator.TargetIndex` | js/main.js:154-155 | the index showSection displays is the first index, in document order, carrying the id, and is -1 exactly when no section has the id |
| `Navigator.ShownSections` | js/main.js:148-156 | the sections keep their ids, and a section is displayed exactly when it is the first in document order carrying the id |
| `Navigator.ShownLinks` | js/main.js:154-159 | the links keep their targets; when some section carries the id, exactly the links pointing at it are active; otherwise the links are unchanged |
| `Navigator.ShownEntrances` | js/main.js:154-176 | the log keeps its old entries and grows by one exactly when some section carries the id; the new entry is the first such section |
| `Navigator.ShowKnownSection` | js/main.js:146-162 | for an id some section carries: exactly that section is displayed, all others hidden, exactly the links pointing at it are active, and its entrance is restarted once |
| `Navigator.ShowUnknownSection` | js/main.js:146-155 | for an id no section carries: every section is hidden, and links and animations are untouched |
| `Navigator.ShowSectionTwiceReplays` | js/main.js:146-177 | showing a section again leaves sections and links as the first call did; for a known id the entrance log ends with that same section restarted twice, for an unknown id it is unchanged |
| `Navigator.Page.Valid` | js/main.js:247-256 | the nav's `mobile-open` and the toggle's `active` agree; a missing toggle means no open menu, no shown toggle and no resize timer; missing arrows mean no visible arrow and no pending arrow timer |
| `Navigator.Page.constructor` | js/main.js:48-307 | after load: outside the content area, nav hidden, menu closed, down arrow visible iff arrows exist, toggle shown iff it exists and a mobile viewport already shows the content area |
| `Navigator.Page.FindSection` | js/main.js:154 | the search loop returns the first section with the id, as `FirstWithId` |
| `Navigator.Page.UpdateActiveNavLink` | js/main.js:98-105 | the links become `Highlight` of the old links |
| `Navigator.Page.HideAllSections` | js/main.js:148-151 | every section keeps its id and is hidden |
| `Navigator.Page.ShowSection` | js/main.js:146-177 | sections, links and entrance log become `ShownSections`, `ShownLinks` and `ShownEntrances` of the old ones; nothing else changes |
| `Navigator.Page.ClickKeycap` | js/main.js:108-144 | an unmatched class string changes nothing; a matched one performs showSection for the matched id; the menu is never touched |
| `Navigator.Page.FollowNavLink` | js/main.js:38-44 | the sticky nav's listener leaves sections and entrance log as showSection does, and the links highlighted for the link's target whether or not its section exists |
| `Navigator.Page.ClickNavLink` | js/main.js:38-267 | shows the link's section, leaves links active exactly when they point at that section even if it does not exist, and closes the menu on mobile keeping both menu flags equal |
| `Navigator.Page.CloseMenuFromLink` | js/main.js:260-267 | the mobile menu's link listener closes the menu (both flags) on a mobile width when the toggle exists, and otherwise leaves both flags as they were |
| `Navigator.Page.ClickMenuToggle` | js/main.js:247-257 | the toggle's `active` and the nav's `mobile-open` both flip |
| `Navigator.Page.ClickDocument` | js/main.js:270-277 | on mobile a click outside nav and toggle clears both menu flags; otherwise nothing changes |
| `Navigator.Page.UpdateScrollArrows` | js/main.js:345-368 | entering hides the down arrow now and queues the up arrow's timer; leaving is the mirror image; without arrows nothing changes |
| `Navigator.Page.ArrowTimerElapsed` | js/main.js:356-366 | the oldest queued timer fires and makes its arrow visible |
| `Navigator.Page.OnScroll` | js/main.js:51-95 | afterwards `isInContentArea == (top <= 100 && bottom > 200)`; a sample that crosses no edge changes nothing; on mobile the nav's `visible` is untouched; the entering and leaving cases update the nav, toggle, menu and arrows as the listener does |
| `Navigator.Page.OnResize` | js/main.js:281-283 | when the menu toggle exists, a resize leaves exactly one timer pending, however many were before; without it no resize handler is installed and nothing is pending |
| `Navigator.Page.ResizeTimerElapsed` | js/main.js:283-294 | the fired timer closes the menu (both flags), hides the toggle when the width is over 768, and leaves no timer pending |
| `Navigator.ArrowCrossfadeOnEntry` | js/main.js:351-358 | on a freshly loaded desktop page, entering the content area hides the down arrow at once, and the up arrow stays hidden until its timer fires |
| `Navigator.ArrowsBothVisibleAfterQuickReturn` | js/main.js:351-367 | entering and leaving within the delay ends with both arrows visible, because timers are not cancelled |
| `Navigator.ResizeBurstFiresOnce` | js/main.js:279-295 | three resize events and one timer firing on a desktop width leave the menu closed, the toggle hidden and nothing pending |
| `Relay.KeyConfigured` | api/analyze.php:10 | `!$apiKey` refuses an unset variable, `""` and `"0"`; every other one-character key and every key of two or more characters (such as `"00"` or `"false"`) is accepted |
| `Relay.IsSet` | api/analyze.php:19 | for the four completion field names: `isset` is false for anything that is not an object; when it holds the key is present; for a present key it holds exactly when the value is not `null` |
| `Relay.Coalesce` | api/analyze.php:36-37 | `??` gives the input's field when it is present and non-null, else the default |
| `Relay.AuthorizationHeader` | api/analyze.php:31 | the header is the Authorization prefix followed by exactly the key, and nothing else |
| `Relay.BearerToken` | api/analyze.php:31 | a header parses to a token exactly when it is the Authorization prefix followed by that token |
| `Relay.BearerRoundTrip` | api/analyze.php:31 | the forwarded Authorization header reads back as exactly the server's key |
| `Relay.ForwardBody` | api/analyze.php:33-38 | the forwarded body has exactly the four keys, `model` and `messages` copied, each tuning field copied when present and non-null, and 0.3 or 500 when it is absent or `null` |
| `Relay.Gate` | api/analyze.php:8-38 | no key gives 500 with the fixed body; a key without both required fields gives 400 with the fixed body; otherwise the request goes to the upstream URL with the JSON content type and bearer headers and the forwarded body |
| `Relay.RelayedStatus` | api/analyze.php:44 | `http_response_code` sets any nonzero code, and for 0 sets nothing, leaving PHP's default 200 |
| `Relay.Handle` | api/analyze.php:40-45 | a refusal is the answer; a forwarded request is answered with the upstream's body, and with its status unless that is 0, which becomes 200 |
| `Relay.FailedTransferAnswersOk` | api/analyze.php:40-45 | when the transfer fails (status 0, no body), a valid request is answered 200 with an empty body |
| `Relay.MissingKeyComesFirst` | api/analyze.php:10-23 | without a key the answer is 500 for every body, including one that also lacks the required fields |
| `Relay.ZeroKeyIsMissing` | api/analyze.php:10-14 | the key `"0"` is refused as not configured |
| `Relay.ModelWithoutMessages` | api/analyze.php:19-23 | `{"model":"gpt-4"}` is refused with 400 |
| `Relay.NullMessagesIsMissing` | api/analyze.php:19-23 | an explicit `null` for `messages` counts as missing |
| `Relay.NonObjectBody` | api/analyze.php:17-23 | a body that is not a JSON object, or not JSON, is refused with 400 |
| `Relay.DefaultsApplied` | api/analyze.php:36-37 | with the tuning fields absent the forwarded body carries 0.3 and 500 |
| `Relay.NullTuningFieldsDefaulted` | api/analyze.php:36-37 | an explicit `null` for `temperature` and `max_tokens` is replaced by 0.3 and 500 in the forwarded body |
| `Relay.OnlyCompletionFieldsForwarded` | api/analyze.php:33-38 | inputs that agree on the four completion fields are forwarded identically |
| `Relay.ForwardIsIdempotent` | api/analyze.php:33-38 | gating a forwarded body again forwards it unchanged |

## Left out

- GSAP animation (`animateSection`, `animateSectionSmooth`, `initScrollAnimations`, the parallax, the ScrollTrigger nav fade, `gsap.to` scrolling, `killTweensOf`, `gsap.set`). This is an external library with float durations and eases. `resetSectionAnimations`, the smooth scroll and the entrance animation of `showSection` are one abstract event: the index appended to `Page.entrances`.
- The scroll arrows' own click and touch handlers (js/main.js:310-342). They only start a GSAP scroll; its effect reaches the model as later `OnScroll` samples.
- Touch de-duplication (js/main.js:114-120). Disabling pointer events for 300 ms depends on the timing and order of DOM events, not on sequential state.
- Real time. The 200 ms and 250 ms delays appear only as pending steps that the event loop fires later.
- DOM plumbing: `querySelectorAll`, `getElementById`, `getBoundingClientRect`, `closest`, `contains`, listener registration and `DOMContentLoaded`. `getElementById` is modelled over the sections only; the model assumes no other element carries a section's id. Every nav link is assumed to carry a `data-section` attribute and to sit inside the sticky nav, so the document-level click handler ignores it. The sticky nav and the content container are assumed present, as the script requires (without the container the scroll listener at js/main.js:52 would throw on every sample), and the up arrow is assumed to lack `visible` in the markup. The flags of the toggle and the nav are assumed off in the markup on load. Every section is assumed to carry a non-empty id: `getElementById("")` finds nothing, while `FirstWithId` would find a section whose id is empty.
- The lightbox (js/main.js:480-517): a visibility toggle outside the navigator.
- PHP I/O: `getenv`, `file_get_contents('php://input')`, `json_decode`, `json_encode`, `header()`, `http_response_code` and curl. The model starts from the optional key and the decoded value. `json_decode($body, true)` turns JSON objects into PHP arrays, so `{}` and `[]` decode to the same value and `{"0":a,"1":b}` becomes a list; the model keeps objects as objects, so where the script forwards `"messages":{}` as `[]`, the model forwards an empty object. JSON numbers are opaque decimals, so PHP's int/float distinction is not modelled. The forwarded body is a map, so the key order `json_encode` writes is not captured. The response headers of lines 2-5 are not modelled.
- Upstream failures beyond their result. A failed `curl_exec` yields `false`, which `echo` prints as an empty body, and status 0; the upstream is an arbitrary function from request to response, and a failure is its `Response(0, "")`. The curl error itself is not modelled.
- The stylesheet's display rules for the menu toggle. `Page.toggleShown` records only the inline `style.display` that the script sets, so `Page.ClickMenuToggle` does not require the toggle to be shown. The model therefore also allows clicks on a toggle that CSS may hide.
