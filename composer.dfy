/**
 * State logic of the chat composer: the text being typed, the attachments
 * waiting to be sent, and what pressing send hands to the chat.
 */
module Composer {

  import opened Host

  // ---------------------------------------------------------------------------
  // Messages and attachments
  // ---------------------------------------------------------------------------

  /** A message as the composer produces it, before the chat gives it an id and an author. */
  datatype PartialMessage =
    | PartialFile(name: string, uri: string)
    | PartialImage(uri: string)
    | PartialVideo(uri: string)
    | PartialText(text: string)

  /** An attachment is any partial message other than text. */
  type Attachment = m: PartialMessage | !m.PartialText? witness PartialFile("", "")

  // ---------------------------------------------------------------------------
  // String.prototype.trim
  // ---------------------------------------------------------------------------

  /** The characters `trim` removes: ECMAScript WhiteSpace and LineTerminator. */
  predicate IsWhitespace(c: char)
  {
    c in {'\t', '\n', '\U{000B}', '\U{000C}', '\r', ' ', '\U{00A0}', '\U{1680}',
          '\U{2000}', '\U{2001}', '\U{2002}', '\U{2003}', '\U{2004}', '\U{2005}',
          '\U{2006}', '\U{2007}', '\U{2008}', '\U{2009}', '\U{200A}', '\U{2028}',
          '\U{2029}', '\U{202F}', '\U{205F}', '\U{3000}', '\U{FEFF}'}
  }

  predicate AllWhitespace(s: string)
  {
    forall k :: 0 <= k < |s| ==> IsWhitespace(s[k])
  }

  /** The number of whitespace characters at the front of `s`. */
  function LeadingBlanks(s: string): (n: nat)
    ensures n <= |s|
    ensures forall k :: 0 <= k < n ==> IsWhitespace(s[k])
    ensures n < |s| ==> !IsWhitespace(s[n])
  {
    if s != [] && IsWhitespace(s[0]) then 1 + LeadingBlanks(s[1..]) else 0
  }

  /** The number of whitespace characters at the back of `s`. */
  function TrailingBlanks(s: string): (n: nat)
    ensures n <= |s|
    ensures forall k :: |s| - n <= k < |s| ==> IsWhitespace(s[k])
    ensures n < |s| ==> !IsWhitespace(s[|s| - 1 - n])
  {
    if s != [] && IsWhitespace(s[|s| - 1]) then 1 + TrailingBlanks(s[..|s| - 1]) else 0
  }

  /**
   * `s.trim()`: `s` without its leading and trailing whitespace. The result is
   * the slice of `s` that starts at its first non-blank character; everything
   * after it is blank; it is empty exactly when `s` is all blank, and
   * otherwise starts and ends with a non-blank character.
   */
  function Trim(s: string): (t: string)
    ensures |t| <= |s|
    ensures LeadingBlanks(s) + |t| <= |s| && t == s[LeadingBlanks(s)..LeadingBlanks(s) + |t|]
    ensures forall k :: LeadingBlanks(s) + |t| <= k < |s| ==> IsWhitespace(s[k])
    ensures t == [] <==> AllWhitespace(s)
    ensures t != [] ==> !IsWhitespace(t[0]) && !IsWhitespace(t[|t| - 1])
  {
    var u := s[LeadingBlanks(s)..];
    u[..|u| - TrailingBlanks(u)]
  }

  /** The first non-blank position of a string is determined by the string. */
  lemma LeadingBlanksUnique(s: string, i: nat)
    requires i <= |s|
    requires forall k :: 0 <= k < i ==> IsWhitespace(s[k])
    requires i < |s| ==> !IsWhitespace(s[i])
    ensures LeadingBlanks(s) == i
  {
  }

  /** The last non-blank position of a string is determined by the string. */
  lemma TrailingBlanksUnique(s: string, j: nat)
    requires j <= |s|
    requires forall k :: |s| - j <= k < |s| ==> IsWhitespace(s[k])
    requires j < |s| ==> !IsWhitespace(s[|s| - 1 - j])
    ensures TrailingBlanks(s) == j
  {
  }

  /**
   * Trim is characterised by its result: whatever blank prefix and suffix
   * surround a core that is empty or starts and ends non-blank, trimming
   * yields that core.
   */
  lemma TrimUnique(prefix: string, core: string, suffix: string)
    requires AllWhitespace(prefix) && AllWhitespace(suffix)
    requires core != [] ==> !IsWhitespace(core[0]) && !IsWhitespace(core[|core| - 1])
    ensures Trim(prefix + core + suffix) == core
  {
    var s := prefix + core + suffix;
    if core == [] {
      assert s == prefix + suffix;
      assert AllWhitespace(s) by {
        forall k | 0 <= k < |s| ensures IsWhitespace(s[k]) {
          if k < |prefix| { assert s[k] == prefix[k]; } else { assert s[k] == suffix[k - |prefix|]; }
        }
      }
    } else {
      forall k | 0 <= k < |prefix| ensures IsWhitespace(s[k]) {
        assert s[k] == prefix[k];
      }
      assert s[|prefix|] == core[0];
      LeadingBlanksUnique(s, |prefix|);
      var u := s[|prefix|..];
      assert u == core + suffix;
      forall k | |u| - |suffix| <= k < |u| ensures IsWhitespace(u[k]) {
        assert u[k] == suffix[k - |core|];
      }
      assert u[|u| - 1 - |suffix|] == core[|core| - 1];
      TrailingBlanksUnique(u, |suffix|);
      assert u[..|u| - |suffix|] == core;
    }
  }

  /** Trimming twice is trimming once. */
  lemma TrimIdempotent(s: string)
    ensures Trim(Trim(s)) == Trim(s)
  {
  }

  // ---------------------------------------------------------------------------
  // Pure views of the handlers
  // ---------------------------------------------------------------------------

  /**
   * `updated.splice(index, 1)` on a copy of `s`, with JavaScript's reading of
   * the index: a negative index counts from the end (clamped at the front),
   * an index past the end removes nothing.
   */
  function RemoveAt(s: seq<Attachment>, index: int): (r: seq<Attachment>)
    ensures 0 <= index < |s| ==>
      |r| == |s| - 1 &&
      (forall k :: 0 <= k < index ==> r[k] == s[k]) &&
      (forall k :: index <= k < |r| ==> r[k] == s[k + 1])
    ensures index >= |s| ==> r == s
  {
    var start := if index < 0 then (if |s| + index < 0 then 0 else |s| + index)
                 else if index > |s| then |s| else index;
    if start < |s| then s[..start] + s[start + 1..] else s
  }

  /** Putting the removed attachment back where it was restores the list. */
  lemma RemoveAtRoundTrip(s: seq<Attachment>, i: nat)
    requires i < |s|
    ensures RemoveAt(s, i)[..i] + [s[i]] + RemoveAt(s, i)[i..] == s
    ensures multiset(RemoveAt(s, i)) + multiset{s[i]} == multiset(s)
  {
  }

  /** A negative index counts from the end of the list. */
  lemma RemoveAtFromEnd(s: seq<Attachment>, k: int)
    requires 1 <= k <= |s|
    ensures RemoveAt(s, -k) == RemoveAt(s, |s| - k)
  {
  }

  /** A negative index further back than the start removes the first attachment. */
  lemma RemoveAtBeforeStart(s: seq<Attachment>, index: int)
    requires index < -|s| && s != []
    ensures RemoveAt(s, index) == s[1..]
  {
  }

  /**
   * The list handed to `onSendPress`: every pending attachment in order, then
   * one text part holding the trimmed text exactly when it is not empty.
   */
  function Outgoing(text: string, attachments: seq<Attachment>): (m: seq<PartialMessage>)
    ensures |m| == |attachments| + (if Trim(text) == [] then 0 else 1)
    ensures m[..|attachments|] == attachments
    ensures forall i :: 0 <= i < |m| ==> (m[i].PartialText? <==> i == |attachments|)
    ensures Trim(text) != [] ==> m[|attachments|] == PartialText(Trim(text))
  {
    var trimmed := Trim(text);
    attachments + (if trimmed != [] then [PartialText(trimmed)] else [])
  }

  /** What `text` becomes after a send: cleared if something non-blank was sent, kept otherwise. */
  function TextAfterSend(text: string): (r: string)
    ensures r == [] || r == text
    ensures r == text <==> AllWhitespace(text)
  {
    if Trim(text) != [] then [] else text
  }

  /** A send hands `onSendPress` nothing exactly when there is no attachment and the text is blank. */
  lemma OutgoingEmpty(text: string, attachments: seq<Attachment>)
    ensures Outgoing(text, attachments) == [] <==> attachments == [] && AllWhitespace(text)
  {
  }

  /** Whitespace-only text is neither sent nor cleared. */
  lemma BlankTextKept(text: string, attachments: seq<Attachment>)
    requires AllWhitespace(text)
    ensures Outgoing(text, attachments) == attachments
    ensures TextAfterSend(text) == text
  {
  }

  // ---------------------------------------------------------------------------
  // The send button
  // ---------------------------------------------------------------------------

  /** `sendButtonVisibilityMode`; `Unset` when the property is not given. */
  datatype VisibilityMode = Always | Editing | Unset

  /** Whether the send button is rendered. */
  predicate ShowSendButton(mode: VisibilityMode, userPresent: bool, text: string)
  {
    mode == Always || (mode == Editing && userPresent && Trim(text) != [])
  }

  /** Whether the rendered send button is disabled; it looks at the untrimmed text. */
  predicate SendDisabled(disableSend: bool, text: string, attachments: seq<Attachment>)
  {
    disableSend || (|text| == 0 && |attachments| == 0)
  }

  /**
   * In `editing` mode the button is only there when the trimmed text is not
   * empty, so a press always sends that text as the last part.
   */
  lemma EditingButtonSendsText(userPresent: bool, text: string, attachments: seq<Attachment>)
    requires ShowSendButton(Editing, userPresent, text)
    ensures userPresent
    ensures |Outgoing(text, attachments)| == |attachments| + 1
    ensures Outgoing(text, attachments)[|attachments|] == PartialText(Trim(text))
    ensures TextAfterSend(text) == []
  {
  }

  /** Without a visibility mode the button is never shown. */
  lemma UnsetModeHidesButton(userPresent: bool, text: string)
    ensures !ShowSendButton(Unset, userPresent, text)
  {
  }

  /**
   * In `always` mode a blank but non-empty text keeps the button enabled, and
   * pressing it sends an empty list and keeps the text.
   */
  lemma AlwaysModeMaySendNothing(userPresent: bool, text: string)
    requires text != [] && AllWhitespace(text)
    ensures ShowSendButton(Always, userPresent, text)
    ensures !SendDisabled(false, text, [])
    ensures Outgoing(text, []) == []
    ensures TextAfterSend(text) == text
  {
  }

  /** An enabled button has text or an attachment behind it, though the text may be blank. */
  lemma EnabledHasInput(disableSend: bool, text: string, attachments: seq<Attachment>)
    requires !SendDisabled(disableSend, text, attachments)
    ensures !disableSend
    ensures Outgoing(text, attachments) == [] ==> text != [] && AllWhitespace(text)
  {
  }

  // ---------------------------------------------------------------------------
  // The composer component
  // ---------------------------------------------------------------------------

  /**
   * The composer's React state (`text`, `attachments`) and which optional
   * callbacks it was given. The ghost field records each `onSendPress` call.
   */
  class Composer {
    const hasTextListener: bool
    const hasAttachmentPicker: bool
    var text: string
    var attachments: seq<Attachment>
    ghost var sent: seq<seq<PartialMessage>>

    /** Both pieces of state start empty. */
    constructor (textListener: bool, attachmentPicker: bool)
      ensures hasTextListener == textListener && hasAttachmentPicker == attachmentPicker
      ensures text == [] && attachments == [] && sent == []
    {
      hasTextListener := textListener;
      hasAttachmentPicker := attachmentPicker;
      text := [];
      attachments := [];
      sent := [];
    }

    /** `handleChangeText`: stores the new text and forwards it to `onInputTextChanged` when given. */
    method ChangeText(newText: string) returns (notified: Option<string>)
      modifies this
      ensures text == newText
      ensures attachments == old(attachments) && sent == old(sent)
      ensures notified == if hasTextListener then Some(newText) else None
    {
      text := newText;
      notified := if hasTextListener then Some(newText) else None;
    }

    /**
     * `handleAttachmentPress` once `onAttachmentPress` has resolved to
     * `picked`: a non-empty selection is appended after the pending ones.
     * Without `onAttachmentPress` the press does nothing.
     */
    method AttachmentPress(picked: seq<Attachment>)
      modifies this
      ensures attachments ==
        if hasAttachmentPicker && |picked| > 0 then old(attachments) + picked else old(attachments)
      ensures text == old(text) && sent == old(sent)
    {
      if !hasAttachmentPicker {
        return;
      }
      if |picked| > 0 {
        attachments := attachments + picked;
      }
    }

    /** The remove button of the attachment shown at `index`. */
    method RemoveAttachment(index: int)
      modifies this
      ensures attachments == RemoveAt(old(attachments), index)
      ensures text == old(text) && sent == old(sent)
    {
      attachments := RemoveAt(attachments, index);
    }

    /**
     * `handleSend`: calls `onSendPress` once with the outgoing list, empties
     * the attachments and clears the text if a non-blank text was sent. On
     * Android it then also reports the cleared text to `onInputTextChanged`.
     */
    method Send(platform: Platform) returns (message: seq<PartialMessage>, notified: Option<string>)
      modifies this
      ensures message == Outgoing(old(text), old(attachments))
      ensures sent == old(sent) + [message]
      ensures attachments == []
      ensures text == TextAfterSend(old(text))
      ensures notified ==
        if Trim(old(text)) != [] && platform == Android && hasTextListener then Some([]) else None
    {
      message := [];
      if |attachments| > 0 {
        message := message + attachments;
        attachments := [];
      }
      notified := None;
      var trimmedValue := Trim(text);
      if trimmedValue != [] {
        message := message + [PartialText(trimmedValue)];
        text := [];
        if platform == Android && hasTextListener {
          notified := Some([]);
        }
      }
      sent := sent + [message];
    }
  }
}
