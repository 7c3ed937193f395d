# Page behaviours of the daruma-ad corporate site, modelled in Dafny

`script.js` wires a corporate landing page's interactive behaviour. Four of its
handlers are small state machines, and this project models them:

- **Header** (`header.dfy`, module `Header`). The scroll handler gives the header its
  `scrolled` class exactly when the vertical offset is strictly above 50 pixels.
  Offsets are JavaScript numbers, modelled as reals. The handler's `lastScroll`
  variable is kept as a field. It is written but never read.
- **Mobile menu** (`menu.dfy`, module `MobileMenu`). This covers the toggle button's
  `active` class, the navigation panel's `active` class and the body's inline
  `overflow` style. A toggle click flips each class on its own, then locks the body
  exactly when the panel is open. A click on a navigation link closes all three.
- **Contact form** (`form.dfy`, module `FormSubmission`). The submit button's text,
  `disabled` flag and background are modelled, with the form's resets and the
  event loop's pending work: fetches that have not settled and revert timers not
  yet fired. Each asynchronous step is an explicit event: a submit, the settling
  of one pending fetch with an outcome given as input (`Ok`, `NotOk`,
  `NetworkError`), and the firing of the oldest pending timer.
- **FAQ accordion** (`faq.dfy`, module `FaqAccordion`). The items are an array,
  and each holds an `active` flag and an optional question control with its
  `aria-expanded` attribute. The click handler runs in place: it closes every item,
  then reopens the clicked one only if it was closed.

The header, menu and form handlers are classes whose fields are the page state they
mutate. Their methods state the new state as a pure step function of the old one. The
FAQ handler updates an array in place, proved against a step function on its contents.
The properties are lemmas about those step functions, and about runs over any
sequence of events.

In three places the code does something a reader might not expect, and the model follows the code:

- A failed submission's revert timer does not touch `disabled`. Only the success
  timer re-enables the button.
- A link click closes the menu whether or not it was open.
- FAQ exclusivity holds only after a click. The markup may start with several
  items open.

## Model

| member | source | states |
|---|---|---|
| `Header.HeaderController.constructor` | script.js:33-35 | Installing the handler leaves the header's class as the markup gave it, and `lastScroll` starts at 0 |
| `Header.HeaderController.OnScroll` | script.js:37-47 | After a scroll event the header is `scrolled` exactly when the current offset is strictly above 50, and `lastScroll` holds that offset |
| `Header.OnlyLastOffsetMatters` | script.js:37-47 | After any nonempty run of scroll events the class depends only on the last offset. The earlier offsets and the initial class do not matter |
| `Header.CrossingTheThreshold` | script.js:40-44 | An offset of exactly 50 is not scrolled. Going from at most 50 to above 50 adds the class, and going back removes it, from either starting class |
| `MobileMenu.MenuController.constructor` | script.js:51-55 | Installing the handlers changes nothing, so the state is the markup's |
| `MobileMenu.MenuController.OnToggleClick` | script.js:57-61 | A toggle click is `ToggleClick` of the old state, and it keeps the three values in agreement |
| `MobileMenu.MenuController.OnLinkClick` | script.js:64-70 | A link click leaves both classes removed and the overflow style cleared, whatever the prior state |
| `MobileMenu.ToggleFlipsBoth` | script.js:58-60 | A toggle click flips each class. Afterwards the body is locked exactly when the panel is open, even when the two classes disagreed before |
| `MobileMenu.DoubleToggle` | script.js:58-60 | Two toggle clicks restore both classes. They restore the whole state exactly when the lock already matched the panel |
| `MobileMenu.LinkClickCloses` | script.js:66-68 | A link click yields the closed state from any state, so a second link click changes nothing |
| `MobileMenu.RunKeepsCoupled` | script.js:57-70 | From a state where the three values agree, they still agree after any sequence of toggle and link clicks |
| `MobileMenu.RunFromClosed` | script.js:57-70 | From the closed page, the menu is fully open exactly when an odd number of toggle clicks followed the last link click. Otherwise it is fully closed |
| `FaqAccordion.Click` | script.js:188-207 | The in-place click handler. A click on an item without a question control changes nothing. Otherwise every item is closed and the clicked item is reopened only if it was closed |
| `FaqAccordion.ClickActiveItems` | script.js:193-206 | Clicking an active item leaves no item active. Clicking an inactive item leaves exactly that item active |
| `FaqAccordion.ClickSyncsAria` | script.js:190-206 | After a click, every item with a control has `aria-expanded` "true" exactly when it is active. No control appears or disappears, and clicking where no listener exists changes nothing |
| `FaqAccordion.ClicksKeepControls` | script.js:196-206 | No sequence of clicks adds or removes question controls |
| `FaqAccordion.ClicksSettle` | script.js:188-207 | Once any click has reached an item with a control, at most one item is active and every control reports its item's state, including items without a control |
| `FormSubmission.ContactForm.constructor` | script.js:135-142 | At page load the button shows its page text, is enabled and unstyled, and nothing is pending |
| `FormSubmission.ContactForm.Submit` | script.js:139-146 | A submit captures the current text as the text to restore, shows the sending label, disables the button and starts a fetch |
| `FormSubmission.ContactForm.Settle` | script.js:150-179 | A fetch settles. On `Ok` the success branch runs, and otherwise the catch branch |
| `FormSubmission.ContactForm.FireTimer` | script.js:163-178 | The oldest timer restores its captured text and clears the background. Only a success timer re-enables the button |
| `FormSubmission.SuccessPath` | script.js:143-167 | Submit shows the sending label and disables. `Ok` shows the success label and gradient, resets the form and stays disabled. The timer then restores the original state, keeping only the reset |
| `FormSubmission.FailurePath` | script.js:143-178 | A non-ok status or network error shows the failure label and gradient and enables the button at once, without a reset. The timer restores the original state |
| `FormSubmission.FailureTimerKeepsDisabled` | script.js:175-178 | A failure timer restores text and background and leaves `disabled` as it was |
| `FormSubmission.StepKeepsWillSettle` | script.js:145-178 | Each event keeps two facts. The button is disabled only while a fetch or a success timer is pending, and it is styled only while a timer is pending |
| `FormSubmission.RestIsEnabled` | script.js:139-181 | After any sequence of events, once nothing is pending the button is enabled and unstyled |
| `FormSubmission.UserStepKeepsGuard` | script.js:139-181 | A submit on the enabled button, or any other event, keeps two facts: at most one fetch in flight, and only the page text or the failure label is ever captured |
| `FormSubmission.UserDrivenRuns` | script.js:139-181 | If every submit comes through the enabled button, at most one fetch is ever in flight. At rest, the button shows the page text or the failure label |
| `FormSubmission.StaleLabelAfterRetry` | script.js:143-178 | As written: fail, retry during the failure display, then succeed. The button comes to rest on the failure label, and the stale timer replaces the sending label mid-flight |
| `FormSubmission.StaleLabelRun` | script.js:143-178 | The same six events form a user-driven run that ends on the failure label as written, and on the page text with the corrected capture |
| `FormSubmission.FixedStepKeepsLabels` | script.js:143-178 | With the text captured at load, every event keeps the label accounted for: the page text, or the sending label while a fetch is pending, or a result label while a timer is pending |
| `FormSubmission.RestLabelIsPageLabel` | script.js:143-178 | With the text captured at load, after any sequence of events the button at rest is enabled, unstyled and shows the page text |

## Findings

| source | as written | input that shows it | evidently intended | confidence | as-written member | corrected member |
|---|---|---|---|---|---|---|
| script.js:143 | Each submit captures the button's current text as `originalText`. The failure branch re-enables the button at once, so a retry during the 3-second failure display captures "送信失敗 - 再試行" | submit, fetch fails, submit again before the failure timer, the failure timer fires, the retry succeeds, the success timer fires | The button returns to the text it had before any submission | high (not executed) | `FormSubmission.StaleLabelAfterRetry` | `FormSubmission.RestLabelIsPageLabel` |

The class `FormSubmission.ContactForm` models the handler as written, so it captures the text at each submit. The corrected behaviour is the step functions with `Capture.AtLoad`. That capture takes the text once, when the page loads. It does not remove the brief glitch where a stale failure timer replaces the sending label while a retry is in flight. Removing that would also need the timer to be cancelled.

## Left out

- Scroll reveal and count-up (script.js:17-30, 93-132) are left out. They are callbacks driven by IntersectionObserver, and the count-up uses floating-point easing, `performance.now` and `requestAnimationFrame` timing, and locale formatting.
- Smooth scrolling (script.js:74-90) is left out. It is layout geometry with no state of its own.
- The DOMContentLoaded wiring and the element lookups (script.js:6-14) are not modelled. A missing toggle, panel, form or set of FAQ items means no handler, so no event of that kind happens.
- Header.HeaderController.OnScroll: assumes the header element exists. Without one, the source handler throws a TypeError on every scroll.
- FormSubmission.ContactForm.constructor: assumes the markup's submit button is enabled and has no inline background.
- FormSubmission.ContactForm.Submit: assumes the `.btn-submit` button exists. Without one, the source handler throws after preventing the default submission.
- The fetch, `FormData` and `form.action` are not modelled. Each settlement is an input event with an outcome, and pending fetches may settle in any order.
- Timer durations are not modelled. Every revert uses the same 3000 ms delay, so timers fire in scheduling order, which the model keeps as a queue.
- The gradient colour strings are represented by the `Background` enumeration.
- The form's field contents are not modelled. `form.reset()` is counted in `resets`.
- FormSubmission.ContactForm.Submit: does not check `disabled`. The browser does not submit through a disabled button, but a script can still submit. Lemmas that need the guard take `UserDriven` sequences as a premise.
- FaqAccordion.Click: models only the first question control of an item, the one `querySelector` finds, and only the `active` class and `aria-expanded` attribute.
- MobileMenu.RunFromClosed: starts from the closed page. A page whose markup opens one element but not the other keeps that disagreement under toggle clicks, and only a link click repairs it.
