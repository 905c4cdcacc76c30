/** The e-mail field of a contact record in vcard2fritzXML: one optional address,
    normalised and validated on every write, with two fixed output attributes
    (`id` and `classifier`) that the XML binding emits beside it. */
module MailField {

  /** The verdict of Apache Commons Validator's `EmailValidator.isValid`. Its rules
      are not part of this model; every result below holds for any validator. */
  type Validator = string -> bool

  const Tab: char := '\t'

  /** `String.trim` counts every character up to U+0020 as space. */
  predicate IsSpace(c: char) {
    c <= ' '
  }

  predicate AllSpace(s: string) {
    forall k :: 0 <= k < |s| ==> IsSpace(s[k])
  }

  predicate TabFree(s: string) {
    Tab !in s
  }

  /** The shape `EMail.trim` gives its result: no tab anywhere, no space at either end. */
  predicate Normal(s: string) {
    TabFree(s) && (s == [] || (!IsSpace(s[0]) && !IsSpace(s[|s| - 1])))
  }

  // ---------------------------------------------------------------------------
  // Normalisation: EMail.trim
  // ---------------------------------------------------------------------------

  /** Drops the leading space characters; what is left does not start with one. */
  function StripLeading(s: string): (r: string)
    ensures |r| <= |s|
    ensures r == [] || !IsSpace(r[0])
  {
    if |s| > 0 && IsSpace(s[0]) then StripLeading(s[1..]) else s
  }

  /** `StripLeading` keeps a suffix and drops only space before it, so the suffix
      is the longest one that does not start with a space. */
  lemma {:induction false} StripLeadingSuffix(s: string)
    ensures StripLeading(s) == s[|s| - |StripLeading(s)|..]
    ensures AllSpace(s[..|s| - |StripLeading(s)|])
  {
    if |s| > 0 && IsSpace(s[0]) {
      var d := |s| - |StripLeading(s)|;
      StripLeadingSuffix(s[1..]);
      assert s[..d] == [s[0]] + s[1..][..d - 1];
    }
  }

  /** Drops the trailing space characters; what is left does not end with one. */
  function StripTrailing(s: string): (r: string)
    ensures |r| <= |s|
    ensures r == [] || !IsSpace(r[|r| - 1])
  {
    if |s| > 0 && IsSpace(s[|s| - 1]) then StripTrailing(s[..|s| - 1]) else s
  }

  /** `StripTrailing` keeps a prefix and drops only space after it, so the prefix
      is the longest one that does not end with a space. */
  lemma {:induction false} StripTrailingPrefix(s: string)
    ensures StripTrailing(s) == s[..|StripTrailing(s)|]
    ensures AllSpace(s[|StripTrailing(s)|..])
  {
    if |s| > 0 && IsSpace(s[|s| - 1]) {
      var n := |s|;
      var k := |StripTrailing(s)|;
      StripTrailingPrefix(s[..n - 1]);
      assert s[k..] == s[..n - 1][k..] + [s[n - 1]];
    }
  }

  /** Java's `String.trim`: drop the space characters at both ends. */
  function JavaTrim(s: string): (r: string)
    ensures r == [] || (!IsSpace(r[0]) && !IsSpace(r[|r| - 1]))
  {
    var lead := StripLeading(s);
    StripTrailingPrefix(lead);
    StripTrailing(lead)
  }

  /** `r` is `s` with its first `i` characters and the ones after `r` dropped, all
      of them space. */
  predicate Trims(s: string, i: int, r: string) {
    0 <= i <= |s| - |r| && r == s[i..i + |r|] && AllSpace(s[..i]) && AllSpace(s[i + |r|..])
  }

  /** `String.trim` keeps an infix and drops only space around it. */
  lemma JavaTrimInfix(s: string)
    ensures exists i :: Trims(s, i, JavaTrim(s))
  {
    var lead := StripLeading(s);
    var r := StripTrailing(lead);
    var i := |s| - |lead|;
    StripLeadingSuffix(s);
    StripTrailingPrefix(lead);
    assert r == s[i..i + |r|] by {
      assert lead == s[i..] && r == lead[..|r|];
    }
    assert AllSpace(s[i + |r|..]) by {
      assert s[i + |r|..] == lead[|r|..];
    }
    assert JavaTrim(s) == r;
    assert Trims(s, i, r);
  }

  /** `String.trim` empties exactly the strings made only of space. */
  lemma JavaTrimEmpty(s: string)
    ensures JavaTrim(s) == [] <==> AllSpace(s)
  {
    JavaTrimInfix(s);
    var r := JavaTrim(s);
    var i :| Trims(s, i, r);
    if r == [] {
      assert s == s[..i] + s[i..];
    } else {
      assert s[i] == r[0];
    }
  }

  /** `String.replace("\t", "")`: every tab removed, the rest kept in order. */
  function RemoveTabs(s: string): (r: string)
    ensures |r| <= |s|
    ensures TabFree(r)
  {
    if s == [] then []
    else if s[0] == Tab then RemoveTabs(s[1..])
    else [s[0]] + RemoveTabs(s[1..])
  }

  /** Exactly the characters of `s` other than the tab survive. */
  lemma {:induction false} RemoveTabsMembers(s: string)
    ensures forall c :: c in RemoveTabs(s) <==> c in s && c != Tab
  {
    if s != [] {
      RemoveTabsMembers(s[1..]);
      assert s == [s[0]] + s[1..];
    }
  }

  /** Removing tabs commutes with concatenation, so it keeps the order of the
      characters it keeps. */
  lemma {:induction false} RemoveTabsAppend(a: string, b: string)
    ensures RemoveTabs(a + b) == RemoveTabs(a) + RemoveTabs(b)
  {
    if a == [] {
      assert a + b == b;
    } else {
      assert (a + b)[0] == a[0];
      assert (a + b)[1..] == a[1..] + b;
      RemoveTabsAppend(a[1..], b);
    }
  }

  /** A string without tabs is left as it is. */
  lemma {:induction false} RemoveTabsTabFree(s: string)
    requires TabFree(s)
    ensures RemoveTabs(s) == s
  {
    if s != [] {
      RemoveTabsTabFree(s[1..]);
    }
  }

  /** Removing the tabs of a string that neither starts nor ends with a space
      keeps its two end characters, so the result does not either. */
  lemma RemoveTabsKeepsEnds(t: string)
    requires t == [] || (!IsSpace(t[0]) && !IsSpace(t[|t| - 1]))
    ensures RemoveTabs(t) == [] <==> t == []
    ensures t != [] ==> RemoveTabs(t)[0] == t[0] && RemoveTabs(t)[|RemoveTabs(t)| - 1] == t[|t| - 1]
    ensures RemoveTabs(t) == [] || (!IsSpace(RemoveTabs(t)[0]) && !IsSpace(RemoveTabs(t)[|RemoveTabs(t)| - 1]))
  {
    if t != [] {
      var n := |t|;
      assert t == t[..n - 1] + [t[n - 1]];
      RemoveTabsAppend(t[..n - 1], [t[n - 1]]);
      assert RemoveTabs([t[n - 1]]) == [t[n - 1]] + RemoveTabs([]);
      assert RemoveTabs(t)[0] == t[0];
    }
  }

  /** EMail.trim: strip the ends as `String.trim` does, then delete every tab.
      The result has no tab anywhere and no space at either end. */
  function Trim(s: string): (r: string)
    ensures Normal(r)
  {
    var t := JavaTrim(s);
    RemoveTabsKeepsEnds(t);
    RemoveTabs(t)
  }

  /** `Trim` empties exactly the strings made only of spaces and tabs. */
  lemma TrimEmpty(s: string)
    ensures Trim(s) == [] <==> AllSpace(s)
  {
    JavaTrimEmpty(s);
    RemoveTabsKeepsEnds(JavaTrim(s));
  }

  /** The strings `Trim` leaves unchanged are exactly the normal ones. */
  lemma TrimFixedPoint(s: string)
    ensures Trim(s) == s <==> Normal(s)
  {
    if Normal(s) {
      assert StripLeading(s) == s;
      assert StripTrailing(s) == s;
      RemoveTabsTabFree(s);
    }
  }

  /** Space in front of a string that does not start with space is all that
      `StripLeading` drops. */
  lemma {:induction false} StripLeadingPadded(w: string, t: string)
    requires AllSpace(w) && (t == [] || !IsSpace(t[0]))
    ensures StripLeading(w + t) == t
  {
    if w == [] {
      assert w + t == t;
    } else {
      assert (w + t)[1..] == w[1..] + t;
      StripLeadingPadded(w[1..], t);
    }
  }

  /** Space after a string that does not end with space is all that
      `StripTrailing` drops. */
  lemma {:induction false} StripTrailingPadded(t: string, w: string)
    requires AllSpace(w) && (t == [] || !IsSpace(t[|t| - 1]))
    ensures StripTrailing(t + w) == t
  {
    if w == [] {
      assert t + w == t;
    } else {
      var n := |w|;
      assert (t + w)[..|t + w| - 1] == t + w[..n - 1];
      StripTrailingPadded(t, w[..n - 1]);
    }
  }

  /** A normal string padded with spaces and tabs on both sides trims back to itself. */
  lemma TrimPadded(w1: string, e: string, w2: string)
    requires AllSpace(w1) && AllSpace(w2) && Normal(e)
    ensures Trim(w1 + e + w2) == e
  {
    var s := w1 + e + w2;
    if e == [] {
      assert AllSpace(s);
      TrimEmpty(s);
    } else {
      assert s == w1 + (e + w2);
      StripLeadingPadded(w1, e + w2);
      StripTrailingPadded(e, w2);
      RemoveTabsTabFree(e);
    }
  }

  /** Spaces and tabs around an address are dropped; tabs inside it are deleted
      and every other character is kept in order. */
  lemma TrimPaddedTabs(w1: string, e: string, w2: string)
    requires AllSpace(w1) && AllSpace(w2)
    requires e == [] || (!IsSpace(e[0]) && !IsSpace(e[|e| - 1]))
    ensures Trim(w1 + e + w2) == RemoveTabs(e)
  {
    var s := w1 + e + w2;
    if e == [] {
      assert AllSpace(s);
      TrimEmpty(s);
    } else {
      assert s == w1 + (e + w2);
      StripLeadingPadded(w1, e + w2);
      StripTrailingPadded(e, w2);
    }
  }

  /** Trimming twice is trimming once. */
  lemma TrimIdempotent(s: string)
    ensures Trim(Trim(s)) == Trim(s)
  {
    TrimFixedPoint(Trim(s));
  }

  // ---------------------------------------------------------------------------
  // Validation: EMail.validateEmail
  // ---------------------------------------------------------------------------

  /** The empty string stands for "no address" and is always accepted; any other
      string is accepted exactly when the library validator accepts it. */
  function ValidateEmail(s: string, isValid: Validator): (ok: bool)
    ensures s == "" ==> ok
    ensures s != "" ==> (ok <==> isValid(s))
  {
    if |s| == 0 then true else isValid(s)
  }

  /** What the field may hold at rest: nothing, or a normal address the
      validator accepts. */
  predicate Storable(e: string, isValid: Validator) {
    e == "" || (Normal(e) && isValid(e))
  }

  /** The at-rest invariant in the words of the source: the value is empty, or
      `trim` leaves it unchanged and the validator accepts it. */
  lemma StorableMeans(e: string, isValid: Validator)
    ensures Storable(e, isValid) <==> e == "" || (e == Trim(e) && isValid(e))
  {
    TrimFixedPoint(e);
  }

  // ---------------------------------------------------------------------------
  // Assignment: EMail.setEmail, as a function of the old value
  // ---------------------------------------------------------------------------

  /** The value the field holds after `setEmail(raw)` when it held `current`:
      the normalised input if it passes the gate, otherwise the old value. */
  function Assign(current: string, raw: string, isValid: Validator): (next: string)
    ensures next == current || next == Trim(raw)
    ensures Storable(current, isValid) ==> Storable(next, isValid)
  {
    var trimmed := Trim(raw);
    if ValidateEmail(trimmed, isValid) then trimmed else current
  }

  /** An input made only of spaces and tabs (the empty one included) clears the
      field, whatever it held and whatever the validator says. */
  lemma AssignBlank(current: string, raw: string, isValid: Validator)
    requires AllSpace(raw)
    ensures Assign(current, raw, isValid) == ""
  {
    TrimEmpty(raw);
  }

  /** Writing back the value the field already holds changes nothing. */
  lemma AssignOwnValue(current: string, isValid: Validator)
    requires Storable(current, isValid)
    ensures Assign(current, current, isValid) == current
  {
    TrimFixedPoint(current);
  }

  /** A normal, non-empty address the validator rejects is rejected as written. */
  lemma RejectedAsWritten(raw: string, isValid: Validator)
    requires Normal(raw) && raw != "" && !isValid(raw)
    ensures !ValidateEmail(Trim(raw), isValid)
  {
    TrimFixedPoint(raw);
  }

  /** The value after a sequence of `setEmail` calls, made in order. */
  function AssignAll(current: string, raws: seq<string>, isValid: Validator): (final: string)
    ensures Storable(current, isValid) ==> Storable(final, isValid)
  {
    if raws == [] then current
    else Assign(AssignAll(current, raws[..|raws| - 1], isValid), raws[|raws| - 1], isValid)
  }

  /** The last input of a sequence that passes the gate decides the final value. */
  lemma {:induction false} AssignAllLastAccepted(current: string, raws: seq<string>, j: nat, isValid: Validator)
    requires j < |raws| && ValidateEmail(Trim(raws[j]), isValid)
    requires forall k :: j < k < |raws| ==> !ValidateEmail(Trim(raws[k]), isValid)
    ensures AssignAll(current, raws, isValid) == Trim(raws[j])
  {
    if j < |raws| - 1 {
      AssignAllLastAccepted(current, raws[..|raws| - 1], j, isValid);
    }
  }

  /** If no input of a sequence passes the gate, the value is what it was. */
  lemma {:induction false} AssignAllNoneAccepted(current: string, raws: seq<string>, isValid: Validator)
    requires forall k :: 0 <= k < |raws| ==> !ValidateEmail(Trim(raws[k]), isValid)
    ensures AssignAll(current, raws, isValid) == current
  {
    if raws != [] {
      AssignAllNoneAccepted(current, raws[..|raws| - 1], isValid);
    }
  }

  /** The line `setEmail` writes to standard output when it rejects an input. */
  function Diagnostic(raw: string, trimmed: string): string {
    "Mail address '" + raw + "' (trimmed: " + trimmed + ") is not valid."
  }

  /** What `setEmail` tells the outside world: nothing, or the diagnostic line. */
  datatype Report = Accepted | Rejected(message: string)

  // ---------------------------------------------------------------------------
  // The field object: class EMail
  // ---------------------------------------------------------------------------

  class EMail {
    /** Output attribute: only one address per contact, so always 0. */
    const id: int
    /** Output attribute: the source format has no categories, so always "private". */
    const classifier: string
    /** The library validator this field consults. */
    const validator: Validator
    /** The stored address, "" when none is set. */
    var email: string

    ghost predicate Valid()
      reads this
    {
      id == 0 && classifier == "private" && Storable(email, validator)
    }

    /** `new EMail()`: an empty field. */
    constructor (validator: Validator)
      ensures Valid()
      ensures email == "" && this.validator == validator
    {
      email := "";
      classifier := "private";
      id := 0;
      this.validator := validator;
    }

    /** `new EMail(raw)`: an empty field, then `setEmail(raw)`. */
    constructor WithAddress(raw: string, validator: Validator)
      ensures Valid()
      ensures email == Assign("", raw, validator) && this.validator == validator
    {
      email := "";
      classifier := "private";
      id := 0;
      this.validator := validator;
      new;
      var _ := SetEmail(raw);
    }

    /** `isEmpty()`: no address is set. */
    function IsEmpty(): (b: bool)
      reads this
      ensures b <==> email == ""
    {
      |email| == 0
    }

    /** `getEmail()`: the stored address, which is empty or normal and accepted. */
    function GetEmail(): (e: string)
      reads this
      requires Valid()
      ensures e == email
      ensures Trim(e) == e && ValidateEmail(e, validator)
    {
      TrimFixedPoint(email);
      email
    }

    /** `setEmail(raw)`: store the normalised input if it passes the gate,
        otherwise keep the old value and report the rejection. */
    method SetEmail(raw: string) returns (report: Report)
      modifies this
      ensures old(Valid()) ==> Valid()
      ensures email == Assign(old(email), raw, validator)
      ensures ValidateEmail(Trim(raw), validator) ==> email == Trim(raw) && report == Accepted
      ensures !ValidateEmail(Trim(raw), validator) ==>
        email == old(email) && report == Rejected(Diagnostic(raw, Trim(raw)))
    {
      var trimmed := Trim(raw);
      if ValidateEmail(trimmed, validator) {
        email := trimmed;
        report := Accepted;
      } else {
        report := Rejected(Diagnostic(raw, trimmed));
      }
      assert email == Assign(old(email), raw, validator);
    }
  }

  // ---------------------------------------------------------------------------
  // Worked cases. Each holds for any validator that meets its requires: one
  // fixed padded address, and otherwise arbitrary accepted or rejected inputs
  // ---------------------------------------------------------------------------

  /** A new empty field holds nothing and carries the fixed attributes. */
  method ScenarioEmpty(isValid: Validator) {
    var f := new EMail(isValid);
    assert f.IsEmpty() && f.GetEmail() == "";
    assert f.id == 0 && f.classifier == "private";
  }

  /** Padding around a valid address is removed before it is stored. */
  method ScenarioPadded(isValid: Validator)
    requires isValid("alice@example.com")
  {
    var address, raw := "alice@example.com", "  alice@example.com\t";
    assert raw == "  " + address + "\t";
    TrimPadded("  ", address, "\t");
    var f := new EMail.WithAddress(raw, isValid);
    assert f.GetEmail() == "alice@example.com";
  }

  /** An address the validator rejects leaves a new field empty. */
  method ScenarioRejected(isValid: Validator, raw: string)
    requires Normal(raw) && raw != "" && !isValid(raw)
  {
    RejectedAsWritten(raw, isValid);
    var f := new EMail.WithAddress(raw, isValid);
    assert f.IsEmpty();
  }

  /** A valid address is stored, a rejected one then keeps it, and the empty
      string clears it. */
  method ScenarioReplace(isValid: Validator, good: string, bad: string)
    requires Normal(good) && good != "" && isValid(good)
    requires Normal(bad) && bad != "" && !isValid(bad)
  {
    var f := new EMail(isValid);
    TrimFixedPoint(good);
    var r := f.SetEmail(good);
    assert f.GetEmail() == good && r == Accepted;
    RejectedAsWritten(bad, isValid);
    r := f.SetEmail(bad);
    assert f.GetEmail() == good && r.Rejected?;
    r := f.SetEmail("");
    assert f.IsEmpty() && r == Accepted;
  }

  /** Writing back what `getEmail` returns leaves any field as it was. */
  method ScenarioRewrite(f: EMail)
    requires f.Valid()
    modifies f
    ensures f.Valid() && f.email == old(f.email)
  {
    AssignOwnValue(f.email, f.validator);
    var r := f.SetEmail(f.GetEmail());
  }
}
