/** `Cancel`: the value a cancelled request is rejected with. It stores the
    message it was given, prints as "Cancel" or "Cancel: <message>", and
    carries the cancel marker `__CANCEL__ = true` on its prototype, so every
    instance has it. */
module CancelRecord {
  import opened Wrappers

  /** `message` is absent when `cancel()` was called without one. */
  datatype Cancel = Cancel(message: Option<string>)

  /** `Cancel.prototype.__CANCEL__`. */
  const CancelMarker: bool := true

  /** The message is truthy: present and not the empty string. */
  predicate HasMessage(c: Cancel) {
    c.message.Some? && c.message.value != ""
  }

  /** `toString()`. */
  function ToString(c: Cancel): (r: string)
    ensures |r| >= 6 && r[..6] == "Cancel"
    ensures HasMessage(c) <==> |r| > 6
  {
    "Cancel" + (if HasMessage(c) then ": " + c.message.value else "")
  }

  /** Reading the message back from the printed form. */
  function MessageOf(text: string): Option<string> {
    if |text| > 8 && text[..8] == "Cancel: " then Some(text[8..]) else None
  }

  /** The printed form loses nothing but the difference between an absent
      and an empty message: a truthy message can be read back from it. */
  lemma ToStringRoundTrip(c: Cancel)
    ensures HasMessage(c) ==> MessageOf(ToString(c)) == c.message
    ensures !HasMessage(c) ==> ToString(c) == "Cancel" && MessageOf(ToString(c)).None?
  {
    if HasMessage(c) {
      var r := ToString(c);
      assert r == "Cancel: " + c.message.value;
      assert r[..8] == "Cancel: ";
      assert r[8..] == c.message.value;
    }
  }

  /** Two instances print alike exactly when both messages are falsy or both
      are the same truthy message. */
  lemma ToStringInjective(a: Cancel, b: Cancel)
    ensures ToString(a) == ToString(b) <==>
            (!HasMessage(a) && !HasMessage(b)) || (HasMessage(a) && HasMessage(b) && a.message == b.message)
  {
    ToStringRoundTrip(a);
    ToStringRoundTrip(b);
  }
}
