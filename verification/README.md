# Portfolio page behaviour — a Dafny model

This project models the decision logic in `script.js`, the client-side script of a static portfolio page. The browser glue is left out. What remains is five small state machines over plain values, plus one threshold test. Each is a Dafny module with its own file.

- `KonamiCode` (konami.dfy): the keyboard easter egg. A sliding window keeps the names of the last ten keys pressed. After every key press the concatenation of the window is compared with the concatenation of the fixed target (up, up, down, down, left, right, left, right, b, a).
- `Theme` (theme.dfy): the light/dark preference. The page has a `data-theme` attribute and a stored copy under the key `theme`. `toggleTheme` writes the same new value to both. At startup the page applies `stored || 'dark'`.
- `ScrollEffects` (scroll_effects.dfy): the scroll-to-top visibility test (`offset > 300`) and `updateActiveNav`. The current section is the last one, in document order, with `offset >= top - 100`. A link is then marked active exactly when its `href` is `'#' + current`.
- `MobileMenu` (mobile_menu.dfy): the hamburger menu. Its state is the toggle button's `active` class, the panel's `active` class and the body's `overflow` style. Four events drive it: a button click, a link click, a document click, and a settled resize. The viewport width and where the click landed are carried by the events.
- `MatrixRain` (matrix_rain.dfy): the per-frame update of the column drop counters of the easter-egg animation. The random coin `Math.random() > 0.975` is an input, one boolean per column.
- `Optional` (optional.dfy): `Option`, standing for the `null` that `getAttribute` and `localStorage.getItem` can return.

Modelling choices:

- Scroll offsets, section tops, viewport sizes and drop counters are unbounded integers. The drop counters are whole numbers in the source too. Browser scroll offsets can be fractional.
- Three things are parameters rather than modelled: random draws (the coins), the viewport width and height, and the position of a click target.
- A section without an `id` yields `null` from `getAttribute`. The template literal prints that as `#null`, and the model does the same (`AttributeText`). A link without an `href` is never marked active.
- The body's `overflow` style starts unset. The menu therefore has three overflow values: `Unset`, `Hidden` and `Auto`.

Behaviour of script.js worth noting:

- The call to `localStorage.getItem` is unguarded (script.js:363). If storage throws, the rest of the script does not run. Only a missing value (`null`) and the empty string fall back to `dark`.
- A stored value other than `light` or `dark` is applied unchanged at startup (script.js:363-364). The first toggle replaces it with `light`.
- The key test compares concatenations (script.js:293), so it is weaker than comparing sequences. `JoinedMatchIsNotElementwise` shows how to build, from any matching window, a different ten-name window that also matches. The construction needs an empty key name, which a keyboard does not produce.

## Model

| member | source | states |
|---|---|---|
| KonamiCode.Push | script.js:290-291 | the window after a key press ends with that key and holds at most ten names; a short window grows by the key, a full one drops its oldest name |
| KonamiCode.KeyDown | script.js:289-296 | the handler's window is the pushed window; a key press that completes the ten target keys always fires, and the key press right after a full target window never fires, whatever the key |
| KonamiCode.FiresOnLastIsMatchOfFeed | script.js:289-296 | the handler fires on the last of a sequence of key presses exactly when the window after all of them joins like the target |
| KonamiCode.FeedKeepsLastTen | script.js:290-291 | after any sequence of key presses the window is the last ten of everything seen, in order |
| KonamiCode.WindowIsRecentKeys | script.js:286-291 | from a fresh page, after n key presses the window is the last min(n, 10) keys, in order |
| KonamiCode.TargetAlwaysFires | script.js:287-294 | typing the ten target keys fires on the last one, whatever was typed before |
| KonamiCode.FreshTargetFiresOnlyAtEnd | script.js:286-294 | on a fresh page, typing the target fires on the tenth key and on none of the first nine |
| KonamiCode.OneKeyAlteredNeverMatches | script.js:287-293 | a full window that differs from the target in exactly one key does not fire |
| KonamiCode.SuffixThenAnythingNeverMatches | script.js:287-293 | the target minus its first j keys (1 <= j <= 9), followed by any keys, never matches |
| KonamiCode.NoRefireWithinNineKeys | script.js:289-294 | after the target is typed, none of the next one to nine key presses fires, whatever they are |
| KonamiCode.JoinedMatchIsNotElementwise | script.js:293 | for every matching ten-name window, merging two neighbouring names and leaving an empty name gives a different ten-name window that still matches, because only the concatenations are compared |
| Theme.Flip | script.js:357 | the new theme is always light or dark; it is dark exactly when the current attribute is light, and it differs from a known current theme |
| Theme.ToggleTheme | script.js:355-360 | after a toggle the stored value equals the applied attribute, both are a known theme, and dark results exactly from light |
| Theme.LoadTheme | script.js:362-364 | startup applies the stored value unless it is missing or empty, in which case it applies dark; storage is left as it was |
| Theme.ToggleTwiceIsIdentity | script.js:355-360 | toggling twice restores a light or dark attribute and stores it |
| Theme.ReloadKeepsToggledTheme | script.js:355-364 | reloading after a toggle reproduces the page the toggle left |
| Theme.UnknownStoredValuePropagates | script.js:357-364 | an unrecognised non-empty stored value is applied unchanged at startup, and the first toggle turns the page light |
| Theme.TogglesAlternate | script.js:355-364 | after startup and any positive number of toggles, the stored value equals the applied one, the theme is known, and it alternates with the parity of the count |
| ScrollEffects.ScrollToTopBoundary | script.js:74-81 | the button is hidden at 300 and visible at 301, and it stays visible at every larger offset |
| ScrollEffects.LastReached | script.js:141-150 | the result is a reached section with no reached section after it; there is no result exactly when no section is reached |
| ScrollEffects.FindCurrent | script.js:140-150 | the source's overwrite-as-you-go loop yields the id of the last reached section (the text null for a missing id), or the empty string when none is reached |
| ScrollEffects.MarkLinks | script.js:152-157 | every link is visited, and a link is active exactly when its href equals '#' followed by the current name |
| ScrollEffects.UpdateActiveNav | script.js:140-158 | the active flags are those for the current section of the offset, and with pairwise distinct hrefs at most one link is active |
| ScrollEffects.CurrentIsMonotone | script.js:143-150 | a larger offset never yields a current section of smaller index, nor loses the current section |
| ScrollEffects.CurrentIsBandOfOffset | script.js:143-150 | with ascending tops, section i is current exactly when the offset is at least its top minus 100 and below the next section's top minus 100 |
| ScrollEffects.NoSectionMarksBareHash | script.js:141-157 | before any section is reached, exactly the links whose href is '#' are active |
| ScrollEffects.MissingIdReadsNull | script.js:148-154 | whenever the current section has no id, the current name is the text null |
| ScrollEffects.AtMostOneActive | script.js:152-157 | with pairwise distinct hrefs, at most one link is active |
| MobileMenu.ToggleMenu | script.js:9-19 | a button click flips each class, and overflow becomes hidden exactly when the panel is now open, otherwise auto |
| MobileMenu.LinkClicked | script.js:27-35 | a link click closes the menu at widths up to 768 and changes nothing above |
| MobileMenu.DocumentClicked | script.js:38-45 | a click inside the panel or button, on a wide viewport, or with the panel closed changes nothing; an outside click on an open, consistent narrow menu closes it |
| MobileMenu.ResizeSettledAt | script.js:194-204 | a settled resize wider than 768 closes the menu, and a narrower one changes nothing |
| MobileMenu.StepKeepsConsistent | script.js:9-45 | every event keeps the two classes equal and the scroll lock set exactly while the panel is open |
| MobileMenu.RunKeepsConsistent | script.js:9-45 | from the loaded page, any sequence of events leaves the menu consistent |
| MobileMenu.ToggleTwiceRestoresFlags | script.js:9-19 | two button clicks restore both classes, and a click keeps equal classes equal and unequal ones unequal |
| MobileMenu.EvenTogglesStayClosed | script.js:9-19 | an even, positive number of clicks leaves a closed menu closed, with overflow auto |
| MobileMenu.ClosePathsAreIdempotent | script.js:27-45 | given equal classes, each applicable close path, applied once or twice, ends closed with overflow auto |
| MobileMenu.WideningClosesOpenMenu | script.js:196-202 | a menu opened at a narrow width closes and releases the scroll lock once a resize past 768 settles |
| MatrixRain.InitialDrops | script.js:316-322 | the canvas width divided by 14, rounded down, gives the number of columns, each starting at row 1 |
| MatrixRain.UpdateDrops | script.js:331-339 | the frame loop keeps the column count; a drop past the bottom whose coin is set restarts at row 1, and every other drop moves down one row |
| MatrixRain.ResetOnlyPastBottom | script.js:335-338 | a drop at row 1 or below ends a frame at row 1 exactly when it was past the bottom and its coin was set; otherwise it moves down one row |
| MatrixRain.DropsStayInRange | script.js:322-339 | from the initial drops, after k frames every drop is between row 1 and row k + 1 |
| MatrixRain.LockstepBeforeBottom | script.js:322-339 | while no column can yet be past the bottom (14k <= height), after k frames every drop is at row k + 1 whatever the coins |

## Left out

- Section reveal, skill-bar fill and lazy image loading (script.js:97-137, 217-232) are left out. They are intersection-observer callbacks whose only effect is style or attribute mutation.
- `debounce` and the resize settle timer (script.js:193-204, 247-265) are left out. They are about timer cancellation. Only the action run when the resize settles is modelled, and the debounced scroll tick runs the two scroll decisions that are modelled.
- Parallax (script.js:163-174) is left out. It is a floating-point style offset.
- `smoothScroll` and the scroll-to-top click (script.js:48-71, 87-94) are left out. They are layout geometry plus `window.scrollTo`.
- Canvas creation, glyph choice, drawing, the frame and ten-second timers, the colour override and the page reload (script.js:298-351) are left out. These are rendering and timing. Only the drop-counter update is modelled.
- `typeWriter` (script.js:177-190) is left out. It is timer-driven and never called.
- The double-tap zoom guard (script.js:207-214) is left out. It depends on the clock.
- `isTouchDevice` (script.js:235-243) is left out. It is a probe of the navigator.
- The header load animation and all console output (script.js:268-283, 367-385) are left out.
- Missing page elements are not modelled. The model assumes the menu button, the panel and the scroll-to-top button exist. The source only guards the registration of two listeners and would throw elsewhere.
- Exceptions thrown by `localStorage` are not modelled.
- Coordinate fractions are not modelled: offsets are whole pixels.
