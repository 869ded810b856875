# Device rotation classifier and chat composer state

This project models two parts of a React Native chat UI library.

**The device-rotation hook** (`useDeviceRotationSensor`). It subscribes to the
gravity sensor and turns every sample into a rotation angle `degree`, the
atan2 of the vector's y and x components in degrees. It keeps one persistent
orientation, `top`, `down`, `left` or `right`, which starts at `top`. On iOS
and on Android a per-platform `switch` on the current orientation runs two
`if` statements, and each may reassign the orientation. Each guard compares
the angle strictly with ±45 or ±135 degrees moved by the hysteresis offset
`rotationTriggerAngle = 10`, in most cases together with a strict test of the
angle's sign. After each sample the consumer callback receives
the orientation and the unchanged angle.

The model has:
- `host.dfy`: the platform enumeration and an `Option` type, shared by both parts.
- `rotation.dfy`, module `DeviceRotation`: the two tables as data (`Rules`),
  run in the hook's order (`Apply`, `Step`).
  - An independent interval reading (`ClosedForm`) and a first-match reading
    (`FirstMatch`).
  - The sample history as pure functions (`Final`, `Trace`).
  - The class `RotationSensor`, whose `OnSample` method updates the
    `rotation` field with the hook's own `switch`/`if` code.

**The composer** (`Input`). Its React state is the typed `text` and the
pending `attachments`. The model covers four handlers:
- changing the text;
- appending the attachments picked through `onAttachmentPress`;
- the remove button of one attachment, which splices a copy of the list;
- `handleSend`, which passes the outgoing list to `onSendPress` and clears
  the state.

It also covers the two predicates that decide whether the send button is
shown and whether it is disabled.

`composer.dfy`, module `Composer`, has:
- `Trim`, which is `String.prototype.trim` over the ECMAScript WhiteSpace
  and LineTerminator characters;
- `RemoveAt`, which is `splice(index, 1)` with JavaScript's reading of
  negative and out-of-range indices;
- `Outgoing` and `TextAfterSend`, the effect of a send;
- `ShowSendButton` and `SendDisabled`;
- the class `Composer`, with one method per handler.

The hook has no flat-zone gate, no debounce and no direct `top`↔`down`
transition. It runs the table on every sample and calls the callback every
time.

The model also proves something the code does not promise. A single angle
can carry the orientation through two transitions on consecutive samples. On
iOS, `left` at 10 degrees becomes `down`, and the next sample at 10 degrees
makes it `right` (`CascadeFromLeft`). So one step is not idempotent in
general. It is idempotent from `top` and `down`, and at a fixed angle the
orientation settles after at most two samples.

## Model

| member | source | states |
|---|---|---|
| `DeviceRotation.RotationSensor.constructor` | src/hooks/useDeviceRotationSensor.ts:21 | before any sample the orientation is `top` and no callback has been made |
| `DeviceRotation.RotationSensor.OnSample` | src/hooks/useDeviceRotationSensor.ts:23-83 | the switch/if code moves `rotation` to `Step(platform, old rotation, degree)`; the callback gets the new orientation and the unchanged angle, on every sample; the recorded history stays equal to `Final`/`Trace` of the samples |
| `DeviceRotation.Rules` | src/hooks/useDeviceRotationSensor.ts:28-80 | the `if` statements of each `case` of the iOS and Android `switch (rotation)`, with their guards and targets in the hook's order; no rules on any other platform |
| `DeviceRotation.Apply` | src/hooks/useDeviceRotationSensor.ts:29-35 | runs a case's `if` statements one after the other, each firing rule reassigning the orientation, so a later one overrides an earlier one |
| `DeviceRotation.Step` | src/hooks/useDeviceRotationSensor.ts:28-80 | the orientation after one sample: the current orientation's rules of the platform's table applied to the angle |
| `DeviceRotation.FirstMatch` | src/hooks/useDeviceRotationSensor.ts:29-35 | reference reading of a case: the first rule whose guard holds gives the orientation, otherwise it is kept |
| `DeviceRotation.ClosedForm` | src/hooks/useDeviceRotationSensor.ts:28-80 | reference reading of both tables as open angle intervals with the thresholds added up (-35, -145, 35, 145, 55, -55, 125, -125) |
| `DeviceRotation.Final` | src/hooks/useDeviceRotationSensor.ts:21-83 | the persistent `rotation` after a sequence of samples, starting from `top` |
| `DeviceRotation.Trace` | src/hooks/useDeviceRotationSensor.ts:21-83 | the callback invocations caused by a sequence of samples, one per sample, each with the orientation after that sample and its angle |
| `Composer.ShowSendButton` | src/components/Input/Input.tsx:301-302 | the send button is shown exactly when the mode is `always`, or it is `editing` with a user present and the trimmed text not empty |
| `Composer.SendDisabled` | src/components/Input/Input.tsx:304-306 | the button is disabled exactly when `disableSend` is set, or the untrimmed text is empty and there are no attachments |
| `DeviceRotation.StepClosedForm` | src/hooks/useDeviceRotationSensor.ts:28-80 | the table equals its interval reading with strict ends, e.g. iOS `top`: (-35, 0) gives `right`, below -145 gives `left`, any other angle keeps `top`; likewise for the other seven cases |
| `DeviceRotation.TableGuardsExclusive` | src/hooks/useDeviceRotationSensor.ts:28-80 | in every case of both tables the two guards never hold at the same angle |
| `DeviceRotation.SequentialIsFirstMatch` | src/hooks/useDeviceRotationSensor.ts:29-35 | rules run one after the other (a later assignment overrides) give the first-match result whenever the guards are mutually exclusive |
| `DeviceRotation.OrderIrrelevant` | src/hooks/useDeviceRotationSensor.ts:28-80 | the table equals its first-match reading, and swapping the two `if`s of a case does not change the result |
| `DeviceRotation.NeverToOpposite` | src/hooks/useDeviceRotationSensor.ts:28-80 | one sample never turns `top` into `down`, `left` into `right`, or back, on any platform |
| `DeviceRotation.ChangesAreQuarterTurns` | src/hooks/useDeviceRotationSensor.ts:28-80 | an orientation either stays or moves to an adjacent one |
| `DeviceRotation.AndroidMirrorsIOS` | src/hooks/useDeviceRotationSensor.ts:28-80 | Android's step equals iOS's step conjugated by the half turn (`top`↔`down`, `left`↔`right`) |
| `DeviceRotation.OtherPlatformKeeps` | src/hooks/useDeviceRotationSensor.ts:28-80 | on a platform other than iOS and Android the orientation never changes |
| `DeviceRotation.HysteresisBand` | src/hooks/useDeviceRotationSensor.ts:10-80 | within 10 degrees of the nominal boundary between two adjacent orientations, ends included, both of them are kept |
| `DeviceRotation.HysteresisGap` | src/hooks/useDeviceRotationSensor.ts:10-80 | switching from one orientation to another and back needs angles more than 20 degrees apart |
| `DeviceRotation.IdempotentFromTopOrDown` | src/hooks/useDeviceRotationSensor.ts:28-80 | from `top` or `down`, a second sample at the same angle changes nothing |
| `DeviceRotation.CascadeFromLeft` | src/hooks/useDeviceRotationSensor.ts:36-47 | iOS `left` at 10 degrees goes to `down`, and then to `right` at the same angle, so one step is not idempotent in general |
| `DeviceRotation.SettlesWithinTwoSamples` | src/hooks/useDeviceRotationSensor.ts:28-80 | at a fixed angle a third sample never changes what two samples reached |
| `DeviceRotation.TraceShape` | src/hooks/useDeviceRotationSensor.ts:21-83 | n samples cause exactly n callbacks; callback i carries sample i's angle and the orientation after sample i |
| `DeviceRotation.TraceNoOpposite` | src/hooks/useDeviceRotationSensor.ts:21-83 | consecutive callbacks never report opposite orientations, and the first one is never `down` |
| `Composer.LeadingBlanks` | src/components/Input/Input.tsx:137 | counts exactly the whitespace run at the front of the string |
| `Composer.TrailingBlanks` | src/components/Input/Input.tsx:137 | counts exactly the whitespace run at the back of the string |
| `Composer.Trim` | src/components/Input/Input.tsx:137 | the result is the slice of the input that starts at its first non-blank character, all after it is blank; it is empty exactly when the input is all blank, and otherwise starts and ends non-blank |
| `Composer.TrimUnique` | src/components/Input/Input.tsx:137 | any blank prefix and suffix around a core that is empty or non-blank at both ends trims to that core |
| `Composer.TrimIdempotent` | src/components/Input/Input.tsx:137 | trimming twice equals trimming once |
| `Composer.RemoveAt` | src/components/Input/Input.tsx:156-159 | at a valid index exactly that element is deleted and the others keep their order, so the length drops by one; an index past the end changes nothing |
| `Composer.RemoveAtRoundTrip` | src/components/Input/Input.tsx:156-159 | inserting the removed element back at its index restores the list; the removal takes away one copy of that element |
| `Composer.RemoveAtFromEnd` | src/components/Input/Input.tsx:158 | a negative index -k removes the k-th element from the end |
| `Composer.RemoveAtBeforeStart` | src/components/Input/Input.tsx:158 | a negative index before the start of a non-empty list removes its first element |
| `Composer.Outgoing` | src/components/Input/Input.tsx:127-139 | the sent list is all pending attachments in order, followed by one text part with the trimmed text exactly when that is not empty; no other part is text |
| `Composer.TextAfterSend` | src/components/Input/Input.tsx:137-141 | after a send the text is either empty or unchanged, and it is unchanged exactly when it was all blank |
| `Composer.OutgoingEmpty` | src/components/Input/Input.tsx:127-149 | the list given to `onSendPress` is empty exactly when there were no attachments and the text was blank |
| `Composer.BlankTextKept` | src/components/Input/Input.tsx:137-141 | whitespace-only text is neither sent nor cleared |
| `Composer.EditingButtonSendsText` | src/components/Input/Input.tsx:301-306 | in `editing` mode a visible button implies a user is present, and a press sends the trimmed text as the last part and clears the text |
| `Composer.UnsetModeHidesButton` | src/components/Input/Input.tsx:301-302 | without a visibility mode the send button is never shown |
| `Composer.AlwaysModeMaySendNothing` | src/components/Input/Input.tsx:301-306 | in `always` mode, non-empty blank text with no attachments leaves the button shown and enabled, and a press sends an empty list and keeps the text |
| `Composer.EnabledHasInput` | src/components/Input/Input.tsx:304-306 | an enabled button means `disableSend` is off, and an empty send can come only from non-empty blank text |
| `Composer.Composer.constructor` | src/components/Input/Input.tsx:103-104 | text and attachments start empty |
| `Composer.Composer.ChangeText` | src/components/Input/Input.tsx:109-113 | the text becomes the new value, which goes to `onInputTextChanged` exactly when that callback is given; nothing else changes |
| `Composer.Composer.AttachmentPress` | src/components/Input/Input.tsx:115-124 | with `onAttachmentPress` given, a non-empty pick is appended after the pending attachments in order; an empty pick, or no callback, changes nothing |
| `Composer.Composer.RemoveAttachment` | src/components/Input/Input.tsx:152-159 | the attachments become `RemoveAt(old attachments, index)`; the text is unchanged |
| `Composer.Composer.Send` | src/components/Input/Input.tsx:126-150 | `onSendPress` is called exactly once with `Outgoing(text, attachments)`, even when that is empty; the attachments become empty; the text becomes `TextAfterSend(text)`; on Android, when a text was sent, `onInputTextChanged('')` is also called if given |

## Left out

- Sensor subscription, unsubscription and the React hook plumbing (`useLayoutEffect`, the `useRef` callback refresh, `console.log`): these are I/O and a foreign library. The subscription callback is `OnSample`, and the callback result is its return value.
- `Math.atan2` and the radian-to-degree conversion: these are floating point. The angle is an exact `real` input. The table is total, so the lemmas hold for every real, not only for [-180, 180].
- React's deferred state updates: `setText` and `setAttachments` are modelled as immediate assignments. This matches the state after the re-render.
- `Composer.Composer.AttachmentPress`: the `await` is not modelled. The picked list is a parameter, and the append uses the list as it is when the picker resolves. The component's closure uses the list from when the press happened, so an attachment removed during the `await` would come back.
- `Keyboard.dismiss`, all JSX rendering, the emoji check, dayjs duration formatting, and aspect-ratio arithmetic: these are rendering or UI side effects.
- The attachment record types are not part of this model. Attachments keep only a name or URI, because the handlers only move them around without reading their other fields.
- Strings are sequences of characters. JavaScript's `length` counts UTF-16 code units, so `SendDisabled`'s `|text| == 0` matches `value.length === 0` only where emptiness is the question.
- Chat.tsx, Message, Avatar, Video, VideoMessage and all style files: these are UI composition and layout.
