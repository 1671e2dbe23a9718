# Portfolio page scripts, modelled in Dafny

This project models the decision logic of the three page scripts of a personal portfolio
site, and proves what that logic promises:

- **js/form.js** is the contact form. It covers the four field rules, with the e-mail
  pattern `^[^\s@]+@[^\s@]+\.[^\s@]+$` written out as a character predicate, the per-field
  error annotations, and the submit lifecycle around a transport call that can fail. It also
  covers the message character counter, the `debounce` helper, the `form_<name>` drafts in
  local storage and the honeypot.
- **js/main.js** is the page navigation. It covers the mobile menu, the active nav link and
  the scroll-driven section highlighting, the navbar and back-to-top toggles, the in-page
  scroll target and the project filter. It also covers the testimonial slider, the one-shot
  stats counter and the lazy images.
- **js/animations.js** is the visibility-triggered effects. It covers the reusable
  `AnimationObserver` and its option defaults, scroll reveal and its automatic tagging, the
  stagger and timeline observers, the typewriter and the mouse trail.

The DOM is abstracted to the part of it each script reads or writes:

- an element is its class list (`set<string>`);
- a `display` or an `active` class is a flag;
- an attribute is an optional string;
- the captured form controls are a map from control to value and error annotation;
- local storage is a `map<string, string>`.

Browser primitives become inputs:

- An `IntersectionObserver` is a stream of `isIntersecting` entries per target, handled by
  one of three reactions (module `Intersection`): add and keep, add once and unobserve, or
  toggle. A fourth covers a class the class list refuses, where the callback throws and
  changes nothing.
- Timers are explicit "timer fires" methods, which the environment may call once the timer
  is due.
- The random outcome of the simulated transport is the `success` argument of
  `Form.ContactForm.Settle`.
- Scroll positions and offsets are integers.
- A form whose only submit button is disabled is never submitted by the browser, so
  `Form.ContactForm.HandleFormSubmit` and `Form.ContactForm.Submit` require the button to
  be enabled.
- A Dafny `string` holds Unicode characters, while JavaScript's `length`, `charAt` and
  `substring` count UTF-16 code units. The model counts lengths with `JsText.Length`, the
  number of code units, and the typewriter works on code units.

Files:

- `jstext.dfy` (module `JsText`): the JavaScript string built-ins the scripts use, namely
  `trim`, `indexOf`, `includes`, decimal printing and the UTF-16 view of a string.
- `intersection.dfy` (module `Intersection`): the observer abstraction.
- `form.dfy` (module `Form`): js/form.js.
- `site.dfy` (module `Site`): js/main.js.
- `animations.dfy` (module `Animations`): js/animations.js.

Where the comments inside a script and its code disagree, the model follows the code:

- The honeypot listener only calls `preventDefault`. `handleFormSubmit` has already done
  that and started validation and the transport, so a filled honeypot stops nothing.
- The drafts are removed 2 seconds after *every* submit, not only a successful one. The
  comment above that listener says "on successful submission".
- `validateForm` never clears the error of a field that passes, so an error shown earlier
  stays.
- The autosave captures its inputs before the honeypot exists, so the honeypot is never
  saved or restored.

## Model

| member | source | states |
|---|---|---|
| JsText.Trim | js/form.js:114 | both ends of the result are not white space; the result is empty exactly when the value is all white space; a value without white space is unchanged |
| JsText.TrimIsSlice | js/form.js:114 | `trim` keeps one run of the value, with only white space before and after it; with the ends above this pins the result down |
| JsText.IncludesIffOccurs | js/main.js:326 | `includes` holds exactly when the filter occurs at some position of the category |
| JsText.DecimalRoundTrip | js/form.js:292 | reading back the numeral printed for a length gives the length |
| JsText.DecimalString | js/form.js:292 | `${n}` for a non-negative integer is a numeral of digits only, with no leading zero except for 0 itself |
| JsText.UnsignedDecimal | js/animations.js:360 | the exact value of a literal, before rounding to a double: non-negative, from a non-empty string; a run of digits alone denotes the number it spells |
| JsText.LiteralAtPoint | js/animations.js:360 | the exact value of a literal with a '.', before rounding: the digits before it plus the fraction after it |
| JsText.Fraction | js/animations.js:360 | fraction digits denote a non-negative value, below 1 when the digits spell less than 10^k |
| JsText.DecimalBelowPow10 | js/animations.js:360 | a numeral of `k` digits is below 10^k |
| JsText.NumericLiteral | js/animations.js:360 | the empty string (after `trim`) is 0, a leading '-' negates the literal after it, and any other literal is non-negative |
| JsText.ToNumber | js/animations.js:360 | `Number(s)` before rounding: the literal left by `trim` is read with `NumericLiteral`, so an all-white-space string is 0 and anything that is not a decimal literal is NaN |
| JsText.NumeralReads | js/animations.js:360 | `Number` of a numeral, before rounding, is the value it denotes; up to 2^53 that is the double itself |
| JsText.NegatedNumeral | js/animations.js:360 | `Number` of '-' and a numeral, before rounding, is minus the value the numeral denotes |
| JsText.Units | js/form.js:291 | a character below 0x10000 is one code unit, any other a high and a low surrogate that decode back to it |
| JsText.Utf16 | js/form.js:291 | a string has between one and two code units per character |
| JsText.Utf16Append | js/form.js:291 | the code units of a concatenation are the code units of its parts, in order |
| JsText.LengthCountsPairs | js/form.js:291 | `length` equals the character count for text inside the Basic Multilingual Plane and twice it for text outside it |
| JsText.Utf16Prefix | js/form.js:296 | the cut keeps a prefix of the string |
| JsText.Utf16PrefixFits | js/form.js:296 | the prefix is the longest of whole characters within `n` code units: its code units are the first ones of the string, the next character would not fit, and it is the whole string when that fits |
| JsText.Utf16PrefixUnits | js/form.js:296 | the prefix has at most `n` code units, and they are the first code units of the string |
| JsText.Utf16PrefixMaximal | js/form.js:296 | the prefix is the whole string when that fits in `n` units; otherwise one more character would not fit |
| JsText.Utf16PrefixCut | js/form.js:296 | on a string longer than `n` units the prefix keeps exactly `n` units, or `n - 1` when unit `n - 1` is the high half of a pair |
| Form.EmailPatternIsRegex | js/form.js:92-93 | deciding from the first '@' accepts exactly the language of the e-mail pattern: three non-empty runs of non-space, non-'@' characters joined by '@' and then '.' |
| Form.EmailHasNoWhiteSpace | js/form.js:92-93 | an address the pattern accepts holds no white space |
| Form.EmailPattern | js/form.js:92-93 | an accepted address has at least five characters and holds an '@' and a '.' (its exact language is `Form.EmailPatternIsRegex`) |
| Form.MinLength | js/form.js:86-105 | the least trimmed lengths: 2 for the name, 3 for the subject, 10 for the message, none otherwise (the rules are proved about in the rows below) |
| Form.SubmitOk | js/form.js:82-111 | one `validateForm` block: the value is present and not '', the email matches the pattern untrimmed, the others have a trimmed length of at least `MinLength` code units |
| Form.FormValid | js/form.js:82-111 | the verdict is the conjunction of the four blocks (see `Form.ValidationIgnoresWebsite`, `Form.ContactForm.ValidateForm`) |
| Form.BlurOk | js/form.js:113-151 | the blur rule on the trimmed value: the pattern for the email, `MinLength` code units for the other three, no rule for other names |
| Form.SubmitPassImpliesBlurPass | js/form.js:82-151 | a value that passes its submit rule also passes its rule on blur |
| Form.BlurAgreesOnTextFields | js/form.js:82-147 | for name, subject and message the submit rule and the trimmed blur rule agree ('' fails both) |
| Form.LeadingSpaceEmail | js/form.js:92-129 | for every valid address, a leading space passes on blur (trimmed) and fails on submit (untrimmed) |
| Form.NameLengthInCodeUnits | js/form.js:86-121 | a one-character name passes, on blur and on submit, exactly when the character lies outside the Basic Multilingual Plane: `length` counts its two code units |
| Form.ValidationIgnoresWebsite | js/form.js:82-111 | the honeypot's value never changes the verdict of `validateForm` |
| Form.AnnotatedMarksFailures | js/form.js:82-111 | the four checks mark exactly the validated fields that fail, each with its own message; every other field, a passing one included, keeps its annotation |
| Form.ValidFormUnannotated | js/form.js:82-111 | a form that passes is left without any new annotation |
| Form.CounterShowsTypedLength | js/form.js:291-292 | the counter text shows the typed length before truncation, for example "501 / 500" |
| Form.CounterInput | js/form.js:290-302 | all counting is in UTF-16 code units: the counter counts what was typed; the kept value is a prefix whose code units begin the typed ones, at most 500 of them, all of the value when it fits, and when it does not exactly 500, or 499 when the 500th is a high surrogate; the colour is the error one exactly above 500 and the warning one exactly in 451..500 |
| Form.Call | js/form.js:401-406 | a call keeps the wait and sets the one pending timer to `now + wait`, whatever was pending before |
| Form.RunDebounced | js/form.js:397-407 | a trace of calls and elapsed time never changes the closure's wait (runs are bounded by `Form.DebounceRunsAtMostCalls`) |
| Form.DebounceRunsAtMostCalls | js/form.js:397-407 | from an idle closure, the runs plus the pending timer never exceed the calls made |
| Form.BurstRunsOnce | js/form.js:397-407 | a burst of calls followed by a wait of `wait` after the last one runs the function exactly once and leaves no timer |
| Form.DraftKeyInjective | js/form.js:319 | distinct controls have distinct `form_<name>` keys |
| Form.Restored | js/form.js:318-323 | restore never empties a field, and a field that changes takes the draft stored under its key |
| Form.SaveThenRestore | js/form.js:318-329 | saving `v` under a field's key restores `v` in that field unless it is '', and leaves what every other field restores unchanged |
| Form.IsSpam | js/form.js:363-369 | the honeypot counts as filled exactly when its value is not '' |
| Form.ContactForm.Snapshot | js/form.js:32-33 | the submitted data holds every named field's value and the honeypot's value under 'website', and nothing else |
| Form.ContactForm.FillHoneypot | js/form.js:353-360 | a bot's write to the hidden 'website' input sets the honeypot to its value and nothing else |
| Form.ContactForm.Load | js/form.js:310-323 | the form starts with every captured field restored from its non-empty draft, no error, idle autosave, the counter at "0 / 500", the button enabled and no banner |
| Form.ContactForm.RestoreDrafts | js/form.js:318-323 | each captured field takes its saved draft when that is non-empty; nothing else changes |
| Form.ContactForm.ShowFieldError | js/form.js:153-169 | a present field gets exactly one error holding the new message; a missing field changes nothing |
| Form.ContactForm.ClearFieldError | js/form.js:171-177 | the field's error is removed and nothing else changes |
| Form.ContactForm.ValidateField | js/form.js:113-151 | returns the trimmed blur rule, lengths in code units; the field ends with no error when it passes and with its blur message when it fails; no other field changes |
| Form.ContactForm.ValidateForm | js/form.js:82-111 | returns the conjunction of the four rules, lengths in code units, and leaves the fields as `Annotated` says: no short-circuit, and a valid form is unchanged |
| Form.ContactForm.ShowFormStatus | js/form.js:182-195 | the banner shows the kind and text given and one more hide timer is pending |
| Form.ContactForm.HideStatus | js/form.js:192-194 | a hide timer fires and hides whatever the banner shows by then |
| Form.ContactForm.HandleFormSubmit | js/form.js:28-46 | the submitted data is the form's snapshot; an invalid form gets the error banner and annotations with the button enabled and no transport call; a valid one disables the button and hands its data to the transport with fields and banner untouched |
| Form.ContactForm.Submit | js/form.js:333-369 | a submit runs `handleFormSubmit`, always schedules the draft removal, and reports the honeypot verdict without changing anything else |
| Form.ContactForm.Settle | js/form.js:47-66 | the button is enabled again whatever the outcome; success shows the thank-you banner and resets every value; failure shows the failure banner and keeps the values |
| Form.ContactForm.UpdateCounter | js/form.js:290-302 | the message field and counter end as `CounterInput` of the value |
| Form.ContactForm.Input | js/form.js:326-330 | an input event clears the field's error, truncates and counts the message, and restarts the field's debounced save; no other field changes |
| Form.ContactForm.FireSave | js/form.js:327-329 | the field's value at firing time is stored under its key and its timer is cleared |
| Form.ContactForm.FireClearDrafts | js/form.js:333-339 | exactly the keys of the captured inputs are removed from storage |
| Site.LastMatch | js/main.js:106-124 | the result is the last section whose band holds the scroll position, or none when no band does |
| Site.Navigation.Load | js/main.js:11-12 | the page starts with the menu closed and the links as marked up |
| Site.Navigation.OpenMobileMenu | js/main.js:162-172 | the hamburger and the menu are active, the flag is set and the body does not scroll |
| Site.Navigation.CloseMobileMenu | js/main.js:174-184 | the hamburger and the menu are inactive, the flag is clear and the body scrolls again |
| Site.Navigation.HamburgerClicked | js/main.js:146-152 | the menu flag flips, and the active classes and body overflow follow it |
| Site.Navigation.DocumentClicked | js/main.js:155-159 | the menu stays open exactly when it was open and the click landed in the menu or the hamburger |
| Site.Navigation.ClickHamburger | js/main.js:146-159 | a hamburger click, together with the document listener it bubbles to, still flips the menu |
| Site.Navigation.NavLinkClicked | js/main.js:86-97 | exactly the clicked link is active and the menu is closed |
| Site.Navigation.HighlightActiveSection | js/main.js:106-124 | with no matching section the links are untouched; otherwise exactly the links pointing at the last match are active |
| Site.Navigation.Scroll | js/main.js:39-43 | the navbar is 'scrolled' exactly above 50, back-to-top is 'visible' exactly above 300, the position is recorded and the links are highlighted |
| Site.AnchorClick | js/main.js:189-215 | '#' stays put; a found target scrolls to 80 above its top; no target lets the browser follow the link (the contract is the listener's whole case split) |
| Site.ShowsIffSubstring | js/main.js:326 | a filter other than 'all' shows exactly the cards whose category contains it |
| Site.FirstMissing | js/main.js:317 | the first card without a category, if any |
| Site.ProjectFilter.Load | js/main.js:295-299 | every card shows at load and the buttons are as marked up |
| Site.ProjectFilter.FilterProjects | js/main.js:315-341 | under 'all' every card shows; otherwise each card up to the first without a category shows exactly when its category contains the filter, and the later cards are untouched |
| Site.ProjectFilter.FilterClicked | js/main.js:301-311 | exactly the clicked button is active and the cards are filtered by its filter |
| Site.NextIndex | js/main.js:454 | the next index stays in range |
| Site.PrevIndex | js/main.js:462 | the previous index stays in range |
| Site.Advance | js/main.js:493-496 | any number of autoplay steps stays in range |
| Site.NextIndexWraps | js/main.js:454 | next wraps from the last slide to the first and otherwise adds one |
| Site.PrevIndexWraps | js/main.js:462 | previous wraps from the first slide to the last and otherwise subtracts one |
| Site.NextPrevInverse | js/main.js:452-465 | next and previous undo each other |
| Site.AdvanceIsModular | js/main.js:493-496 | k autoplay steps from c land on (c + k) mod n |
| Site.FullRound | js/main.js:493-496 | n steps come back to the starting slide |
| Site.TestimonialSlider.ShowSlide | js/main.js:467-485 | exactly slide `index` shows and exactly dot `index` is active |
| Site.TestimonialSlider.Init | js/main.js:426-449 | with n > 0 cards the slider starts on slide 0 with only its card and dot on |
| Site.TestimonialSlider.Next | js/main.js:452-457 | the slider moves to the next index with only that card and dot on |
| Site.TestimonialSlider.Prev | js/main.js:460-465 | the slider moves to the previous index with only that card and dot on |
| Site.TestimonialSlider.GoToSlide | js/main.js:487-490 | the slider moves to the clicked dot's index |
| Site.TestimonialSlider.Autoplay | js/main.js:493-496 | autoplay takes the same step as the next button |
| Site.StatsCounters.Init | js/main.js:248-250 | the counters have not started |
| Site.StatsCounters.Callback | js/main.js:256-263 | the flag is set exactly when it was set or an entry intersects, and the counters are started once at most, ever |
| Site.LazyEntry | js/main.js:538-543 | an intersecting entry loads `data-src` into `src`, removes the attribute and unobserves the image; any other entry changes nothing |
| Site.LazyRun | js/main.js:536-545 | an image still observed after its entries is unchanged |
| Site.LazyRunLoads | js/main.js:536-545 | with no intersecting entry the image is untouched; after one it is loaded from its `data-src` and unobserved; a second intersecting entry in the same batch reads the removed attribute and sets `src` to "null" |
| Site.LazyImages.Init | js/main.js:531-547 | every `img[data-src]` starts out observed, with the `src` and `data-src` its markup gives it |
| Site.LazyImages.Callback | js/main.js:536-545 | each image goes through the batch's entries about it, in order |
| Intersection.Step | js/animations.js:348-358 | one entry touches only the reaction's class; intersecting adds it; add-once unobserves on it; toggle removes it on any other entry; an unobserved target, or a class the class list refuses, leaves the target untouched |
| Intersection.Run | js/animations.js:347-359 | over a whole entry stream only the reaction's class can change; an unobserved target, or a refused class, is left as it was |
| Intersection.RunAddKeep | js/animations.js:35-44 | add-and-keep never unobserves, and the class is present exactly when it was before or some entry intersected |
| Intersection.RunAddOnce | js/animations.js:349-354 | add-once has the class and is unobserved exactly when some entry intersected |
| Intersection.AddOnceQuietUntilHit | js/animations.js:349-354 | non-intersecting entries before the first hit change nothing |
| Intersection.AddOnceFrozen | js/animations.js:349-354 | after an intersecting entry, later entries never change the target |
| Intersection.RunToggle | js/animations.js:349-357 | toggle keeps observing, and the class is present exactly when the latest entry intersected |
| Intersection.RunRejected | js/animations.js:347-358 | with a refused class, no entry changes the target: the callback throws before it adds, removes or unobserves |
| Intersection.Observer.constructor | js/animations.js:346-364 | the observer observes the given elements with the given reaction |
| Intersection.Observer.Callback | js/animations.js:347-358 | each target goes through the batch's entries about it, in order |
| Animations.Resolve | js/animations.js:336-341 | the first three resolved settings are always truthy, a truthy class is kept, and `once` is never undefined |
| Animations.ResolveDefaults | js/animations.js:336-341 | with no options: threshold 0.2, margin '0px', class 'animate', once true |
| Animations.FalsySettingsReplaced | js/animations.js:337-339 | a falsy setting, such as threshold 0 or class '', is replaced by its default and a truthy one is kept |
| Animations.ClassName | js/animations.js:350 | a string class is used as it is; an integral number up to 2^53 in magnitude is printed in decimal, with a '-' when negative; `undefined`, `null` and the booleans print as their names; only non-integral numbers and integral ones beyond 2^53 are not modelled |
| Animations.ReactionOf | js/animations.js:349-357 | a class that is empty or holds ASCII white space is refused; otherwise a truthy `once` adds and unobserves and a falsy one adds and removes; the class is the resolved one |
| Animations.OnceOption | js/animations.js:340 | for an accepted class the observer repeats exactly when `once` is given and falsy (false, null, 0, ''), and fires once when it is absent |
| Animations.AnimationObserver.constructor | js/animations.js:331-365 | when the browser accepts the resolved threshold and root margin, the options are resolved and one observer with their reaction observes every element |
| Animations.AnimationObserver.New | js/animations.js:331-365 | the construction yields no object exactly when `new IntersectionObserver` refuses the resolved threshold or root margin; otherwise it is the constructor's object |
| Animations.ThresholdAccepted | js/animations.js:360 | `undefined`, `null` and the booleans pass; a number must lie in [0, 1]; a string goes through `ToNumber`, NaN is refused, and its exact value must round to a double in [0, 1], that is lie in [0, 1 + 2^-53] |
| Animations.CssNumber | js/animations.js:361 | a CSS number: an optional sign, then digits with an optional fraction, or a fraction alone, not ending in '.' |
| Animations.MarginLength | js/animations.js:361 | one root-margin token: a CSS number directly followed by `px` in any letter case, or by `%` |
| Animations.MarginParses | js/animations.js:361 | a root-margin string parses when it has at most four white-space-separated tokens and each is a `MarginLength` |
| Animations.MarginAccepted | js/animations.js:361 | `undefined` takes the default; a string must parse; any other value prints without a unit and is refused |
| Animations.GeometryAccepted | js/animations.js:359-362 | `new IntersectionObserver` accepts the options exactly when it accepts both the threshold and the root margin |
| Animations.Words | js/animations.js:361 | the root margin's white-space-separated tokens each are non-empty and free of white space |
| Animations.WordsCons | js/animations.js:361 | a token followed by a space, or by nothing, is the first word |
| Animations.WordsJoin | js/animations.js:361 | splitting tokens joined by spaces gives the tokens back |
| Animations.MarginOfTokens | js/animations.js:361 | joined tokens are a root margin exactly when there are at most four and each is a `px` or `%` length |
| Animations.PrintedValuesNoMargin | js/animations.js:361 | `null`, a boolean or an integral number given as root margin prints without a unit, so the browser refuses it |
| Animations.DefaultGeometryAccepted | js/animations.js:337-338 | the default threshold 0.2 and margin '0px' are accepted |
| Animations.NumeralThreshold | js/animations.js:360 | an integral threshold, as a number or as its numeral, is accepted exactly when it is 0 or 1 |
| Animations.FractionThreshold | js/animations.js:360 | a string such as "0.15" denotes a value in [0, 1) before rounding, and is accepted |
| Animations.NearOneThreshold | js/animations.js:360 | a literal above 1 by at most 2^-53, which `Number` rounds to 1, is accepted |
| Animations.NearOneFamily | js/animations.js:360 | '1.' followed by at least 15 zeros and a '1', such as "1.0000000000000001", is accepted |
| Animations.WordThreshold | js/animations.js:360 | a string that starts, after trimming, with a letter reads as NaN and is refused |
| Animations.ScrollRevealMargin | js/animations.js:30-33 | the scroll reveal's margin '0px 0px -50px 0px' is accepted |
| Animations.UnitlessMarginRejected | js/animations.js:361 | a unitless numeral, such as '10' or '-50', is refused |
| Animations.DetachedUnitRejected | js/animations.js:361 | a number apart from its unit, '10 px', is refused |
| Animations.OtherUnitRejected | js/animations.js:361 | a unit other than `px` and `%`, as in '10em', is refused |
| Animations.FiveLengthsRejected | js/animations.js:361 | five lengths are refused |
| Animations.OnceFiresOnce | js/animations.js:349-354 | fire-once with an accepted class: the first intersecting entry adds the class and unobserves, and nothing after it changes the element |
| Animations.RepeatableFollowsLatest | js/animations.js:355-357 | repeatable with an accepted class: the class is present exactly when the latest entry intersected |
| Animations.RefusedClassInert | js/animations.js:347-358 | a refused class such as 'fade in': whatever `once` says, the element never gains the class and stays observed |
| Animations.DelayClassCycles | js/animations.js:65 | the delay class is 'reveal-delay-' and the digit `index % 3 + 1`, so it is one of 1, 2, 3 and repeats every three cards |
| Animations.FirstWith | js/animations.js:69-77 | the first element in document order carrying the class, if any |
| Animations.AddToFirst | js/animations.js:69-78 | only the first element carrying the class gains the tag; a page without one is unchanged |
| Animations.TagHeaders | js/animations.js:56-59 | every section header gains 'reveal' and nothing else changes |
| Animations.TagCards | js/animations.js:62-66 | every card gains 'reveal' and the delay class of its position among the cards |
| Animations.CardIndexCounts | js/animations.js:62-66 | the position among the cards equals the position exactly when every element before it is a card, and is 0 exactly when none is |
| Animations.TagPairs | js/animations.js:69-78 | the first about image and contact info gain 'reveal-left'; the first about text and contact form gain 'reveal-right' |
| Animations.AddRevealClasses | js/animations.js:54-79 | every element gains exactly the tags its roles call for (`RevealTags`) |
| Animations.PassesCompose | js/animations.js:54-79 | the three passes, each reading the page the previous left, add exactly the tags by role of the original page |
| Animations.AutoTaggedRevealed | js/animations.js:22-49 | on an untagged page, tagging makes an element observable exactly when it is a header, a card or one of the four pair elements |
| Animations.InitScrollReveal | js/animations.js:22-49 | the page is tagged only when nothing carries a reveal class; exactly the reveal-class elements are observed, with add-and-keep 'active' |
| Animations.TagStaggerItems | js/animations.js:96-100 | every child gains 'stagger-item' |
| Animations.InitStaggerAnimations | js/animations.js:84-113 | each found container has its children tagged and its own add-and-keep 'animate' observer; a missing one is skipped |
| Animations.InitTimelineAnimations | js/animations.js:118-137 | no items, no observer; otherwise every item is observed with add-and-keep 'animate' |
| Animations.Typewriter.constructor | js/animations.js:159-164 | the text is kept as its UTF-16 code units, the element is emptied and observed, with nothing typed |
| Animations.Typewriter.TypeWriter | js/animations.js:165-171 | while code units remain, one more is appended and one tick scheduled; the content stays the prefix typed so far |
| Animations.Typewriter.Callback | js/animations.js:174-181 | an intersecting entry starts typing and unobserves; the characters typed and ticks pending equal the number of intersecting entries, capped at the text length |
| Animations.Typewriter.Tick | js/animations.js:165-171 | a tick types the next character until the text is complete, and every tick shrinks the work left, so the chain stops |
| Animations.Without | js/animations.js:239 | `trails.filter(t => t !== trail)` as a function; it is never longer than the array (its properties are the rows below) |
| Animations.WithoutMembers | js/animations.js:239 | the filter removes exactly the given trail |
| Animations.WithoutAbsent | js/animations.js:239 | filtering out a trail that is not there changes nothing |
| Animations.WithoutIncreasing | js/animations.js:239 | the filter keeps the remaining trails in order |
| Animations.WithoutLength | js/animations.js:239 | filtering out a present trail shortens the array by one |
| Animations.ShiftOldest | js/animations.js:224-227 | the shifted trail is older than every trail left |
| Animations.PushNewest | js/animations.js:235 | pushing the newest trail keeps the array oldest first |
| Animations.MouseTrail.constructor | js/animations.js:220-221 | the trail starts empty |
| Animations.MouseTrail.MouseMove | js/animations.js:223-236 | a move on a full array evicts the oldest trail first; then the new trail is pushed, attached and timed; never more than 20 trails |
| Animations.MouseTrail.RemovalFires | js/animations.js:237-240 | a removal timer deletes only its own trail, from the page and the array, in order |
| Animations.FilterOut | js/animations.js:239 | the loop computes `Without` |

## Left out

- Floating-point animation is left out: `animateCounters`, `animateNumber`, the cursor
  easing, parallax, the magnetic and tilt effects, the scroll-progress bar, the preloader's
  random progress, the stagger delay strings and the floating durations. Integers and
  strings cover everything else.
- The skill bars (`initSkillBars`) are not part of this model.
- 10 ms and 300 ms fade timers:
  - The project filter and the slider are modelled by the display they settle to.
  - A pending 300 ms hide timer can hide a card that a later click showed again. That race
    is not modelled.
- `throttle` and the empty throttled scroll listener are left out. They change nothing.
- The transport is abstracted:
  - `submitFormToBackend`, EmailJS and `gtag` are network or foreign calls.
  - `trackFormSubmission` only logs.
  - The simulated call's random outcome is the `success` argument.
- Console output, CSS text, the spinner `innerHTML` and the ARIA attribute copying are left
  out. So are the form fade-in, the page-load scroll and body fade, and the wave and glitch
  timers. None of them is decision logic.
- Site.AnchorClick: the target's `offsetTop` is an input. The model does not cover
  `querySelector` throwing on an `href` that is not a valid selector.
- Scroll positions and offsets are integers. The browser reports doubles, and the
  comparisons are the same on integers.
- Site.TestimonialSlider.Init: the `.slider-dots` container is assumed present. Without it
  the dot loop throws a TypeError.
- Animations.AnimationObserver.constructor: an `animationClass` that is a non-integral
  number, or an integral one beyond 2^53 in magnitude (printed with the shortest digits that
  read back, padded with zeros, and in exponent form from 10^21 on), is not
  modelled. It requires a class name `ClassName` can print. NaN, the infinities, objects and
  arrays are not `JsValue`s, so options holding them are not modelled.
- Form.CounterInput: like `Form.ContactForm.UpdateCounter` and `Form.ContactForm.Input`, it
  keeps whole characters. When the 500th code unit of an over-long message is the high half
  of a pair,
  `substring(0, 500)` keeps that lone half, which a Dafny string cannot hold. The model keeps
  the 499 units before it, and `CounterInput` states where the two part.
- Animations.InitStaggerAnimations: each selector's container is an input with its
  children. The model does not cover containers nested in one another's children.
- The threshold and root margin are checked as `new IntersectionObserver` checks them
  (`Animations.GeometryAccepted`), and `Animations.AnimationObserver.New` gives no object
  where the browser throws. Beyond that check the browser's geometry is the entry stream.
- Animations.GeometryAccepted: a threshold string in exponent, hexadecimal, octal or binary
  form, or "Infinity", reads as NaN in the model, and so is refused where the browser
  would read a number. A root margin with CSS exponents, comments or escapes is refused.
  Sequences of thresholds are not modelled. The rounding to a double is modelled only at
  the top of the range: a negative literal so small that it rounds to -0 (such as "-0."
  followed by 400 zeros and "1") is refused, where the browser accepts it.
- Numbers are exact reals. An option's number is the value of its double, and a string's
  literal keeps its exact value; only `Animations.ThresholdAccepted` accounts for rounding.
- JsText.UnsignedDecimal: the value is the exact one the literal denotes. `Number` then
  rounds it to the nearest double, so "9007199254740993" is 9007199254740992 in
  JavaScript. The model does not round.
- JsText.LiteralAtPoint: the same exact value, for literals with a '.'.
- JsText.NumeralReads: exact where JavaScript rounds; they agree up to 2^53.
- JsText.NegatedNumeral: exact where JavaScript rounds; they agree down to -2^53.
- Animations.FractionThreshold: the value below 1 is the exact one. JavaScript rounds
  "0.99999999999999999" to 1. Acceptance is unaffected, since 1 is accepted too.
- The form's controls are the five of the contact page (`Form.Control`). Inputs with other
  names are not modelled.
- The mouse trail is modelled as written, but the script never registers `initMouseTrail`:
  its `DOMContentLoaded` hook is commented out at js/animations.js:245.
- Missing-element guards (for example no navbar, or no form-status element) are not
  modelled. The elements the listeners use are assumed present.
