/** Software activation: the licence key check, the activation that stores
    a valid licence in the settings, and the activation dialog. The key is
    derived from the registered name and email through SHA-1 and a fixed
    obfuscation; SHA-1 and Unicode upper-casing are parameters of the model
    (`Hashing`), everything after them is modelled byte by byte. */
module Licensing {
  import opened Common
  import opened QtString

  // ---------------------------------------------------------------------------
  // From the digest to the key text
  // ---------------------------------------------------------------------------

  /** The functions the check relies on but which are not modelled: SHA-1
      over bytes, and `QString::toUpper`. */
  datatype Hashing = Hashing(sha1: seq<byte> -> seq<byte>, upper: string -> string)

  /** The digest the key is derived from: SHA-1 of the SHA-1 of the name
      followed by the SHA-1 of the email, both as Latin-1 bytes. */
  function CombinedDigest(h: Hashing, name: string, email: string): seq<byte> {
    h.sha1(h.sha1(Latin1(name)) + h.sha1(Latin1(email)))
  }

  /** The first loop of the check: the bytes at positions 0, 3, 6, ... of
      the digest, in order. */
  function EveryThird(d: seq<byte>): (r: seq<byte>)
    ensures |r| == (|d| + 2) / 3
    ensures forall j :: 0 <= j < |r| ==> r[j] == d[3 * j]
    decreases |d|
  {
    if |d| <= 3 then (if d == [] then [] else [d[0]])
    else [d[0]] + EveryThird(d[3..])
  }

  /** The first loop as written: scan every position and keep those whose
      index is divisible by three. */
  method SelectEveryThird(cH: seq<byte>) returns (rS: seq<byte>)
    ensures rS == EveryThird(cH)
  {
    rS := [];
    var i := 0;
    while i < |cH|
      invariant 0 <= i <= |cH|
      invariant |rS| == (i + 2) / 3
      invariant forall j :: 0 <= j < |rS| ==> rS[j] == cH[3 * j]
    {
      if i % 3 == 0 {
        rS := rS + [cH[i]];
      }
      i := i + 1;
    }
  }

  /** A SHA-1 digest has twenty bytes, of which seven are kept. */
  lemma SevenOfTwenty(d: seq<byte>)
    requires |d| == 20
    ensures |EveryThird(d)| == 7
    ensures EveryThird(d) == [d[0], d[3], d[6], d[9], d[12], d[15], d[18]]
  {
  }

  /** The ten characters the second loop replaces, and their replacements,
      position by position. */
  const REPLACED: string := "abcdef0123"
  const REPLACEMENT: string := "xymnhzpwcu"

  /** The `switch` of the second loop, on a byte read as a Latin-1
      character. */
  function Substitute(b: byte): (r: byte)
    ensures forall k :: 0 <= k < |REPLACED| && b == REPLACED[k] as int ==> r == REPLACEMENT[k] as int
    ensures b as char !in REPLACED ==> r == b
    ensures r == 0 <==> b == 0
  {
    if b == 'a' as int then 'x' as int
    else if b == 'b' as int then 'y' as int
    else if b == 'c' as int then 'm' as int
    else if b == 'd' as int then 'n' as int
    else if b == 'e' as int then 'h' as int
    else if b == 'f' as int then 'z' as int
    else if b == '0' as int then 'p' as int
    else if b == '1' as int then 'w' as int
    else if b == '2' as int then 'c' as int
    else if b == '3' as int then 'u' as int
    else b
  }

  /** What one iteration of the second loop appends to the byte array. A
      replaced character is appended as the ASCII byte it is; any other
      byte is appended as a `QChar` (its Latin-1 reading), which
      `QByteArray::append` encodes in UTF-8: one byte below 0x80, two bytes
      from 0x80 on. */
  function AppendedBytes(b: byte): (e: seq<byte>)
    ensures Substitute(b) < 0x80 ==> e == [Substitute(b)]
    ensures Substitute(b) >= 0x80 ==> |e| == 2 && 0xC2 <= e[0] <= 0xC3 && 0x80 <= e[1] < 0xC0
  {
    Utf8Char(Substitute(b) as char)
  }

  /** The second loop: the byte array `eS` built from the kept bytes. */
  function Transform(rS: seq<byte>): (eS: seq<byte>)
    ensures |eS| >= |rS|
    ensures (forall j :: 0 <= j < |rS| ==> Substitute(rS[j]) < 0x80) ==> |eS| == |rS|
    decreases |rS|
  {
    if rS == [] then [] else AppendedBytes(rS[0]) + Transform(rS[1..])
  }

  /** The kept bytes after substitution, each read as a Latin-1 character. */
  function SubstitutedChars(rS: seq<byte>): (s: string)
    ensures |s| == |rS|
    ensures forall j :: 0 <= j < |rS| ==> s[j] as int == Substitute(rS[j])
  {
    seq(|rS|, j requires 0 <= j < |rS| => Substitute(rS[j]) as char)
  }

  /** The text before the first NUL character. */
  function UntilNul(s: string): (r: string)
    ensures |r| <= |s| && r == s[..|r|]
    ensures '\0' !in r
    ensures |r| < |s| ==> s[|r|] == '\0'
    decreases |s|
  {
    if s == [] || s[0] == '\0' then [] else [s[0]] + UntilNul(s[1..])
  }

  /** Decoding what one iteration appended gives back the substituted
      byte as a character, unless it is NUL, where the text ends. */
  lemma DecodeAppended(b: byte, rest: seq<byte>)
    ensures Substitute(b) == 0 ==> FromByteArray(AppendedBytes(b) + rest) == []
    ensures Substitute(b) != 0 ==>
              FromByteArray(AppendedBytes(b) + rest) == [Substitute(b) as char] + FromByteArray(rest)
  {
    var c := Substitute(b);
    var e := AppendedBytes(b);
    Utf8CharDecodes(c as char, rest);
    assert (e + rest)[|e|..] == rest;
  }

  /** The round trip through the byte array loses nothing but what follows
      a NUL: the text compared with the key is the substituted bytes as
      Latin-1 characters, up to the first NUL. */
  lemma {:induction false} TransformText(rS: seq<byte>)
    ensures FromByteArray(Transform(rS)) == UntilNul(SubstitutedChars(rS))
    decreases |rS|
  {
    if rS != [] {
      var chars := SubstitutedChars(rS);
      assert chars[1..] == SubstitutedChars(rS[1..]);
      DecodeAppended(rS[0], Transform(rS[1..]));
      TransformText(rS[1..]);
    }
  }

  /** Without a NUL among the kept bytes, the key text has one character
      per kept byte. */
  lemma KeyTextLength(rS: seq<byte>)
    requires forall j :: 0 <= j < |rS| ==> rS[j] != 0
    ensures |FromByteArray(Transform(rS))| == |rS|
  {
    TransformText(rS);
    var s := SubstitutedChars(rS);
    assert forall j :: 0 <= j < |s| ==> s[j] != '\0';
  }

  // ---------------------------------------------------------------------------
  // The check and the activation
  // ---------------------------------------------------------------------------

  /** The key the name and email must come with. */
  function ExpectedKey(h: Hashing, name: string, email: string): string {
    h.upper(FromByteArray(Transform(EveryThird(CombinedDigest(h, name, email)))))
  }

  /** `checkLicenseKey`: the key is valid exactly when it equals the
      upper-cased obfuscated digest, character for character. */
  function CheckLicenseKey(h: Hashing, key: string, name: string, email: string): (ok: bool)
    ensures ok <==> key == h.upper(UntilNul(SubstitutedChars(EveryThird(CombinedDigest(h, name, email)))))
  {
    TransformText(EveryThird(CombinedDigest(h, name, email)));
    ExpectedKey(h, name, email) == key
  }

  /** The licence triple the settings hold; empty strings when none was
      saved. */
  datatype LicenseRecord = LicenseRecord(key: string, name: string, email: string)

  /** What an activation returns and leaves in the settings. */
  datatype ActivationResult = ActivationResult(success: bool, stored: LicenseRecord)

  /** `activateSoftware`: store the triple and report success when the key
      is valid; otherwise leave the settings alone and report failure. */
  function ActivateSoftware(h: Hashing, stored: LicenseRecord, key: string, name: string, email: string): (r: ActivationResult)
    ensures r.success <==> CheckLicenseKey(h, key, name, email)
    ensures r.success ==> r.stored == LicenseRecord(key, name, email)
    ensures !r.success ==> r.stored == stored
  {
    if CheckLicenseKey(h, key, name, email) then ActivationResult(true, LicenseRecord(key, name, email))
    else ActivationResult(false, stored)
  }

  /** `isActiveAndValid`: the stored triple passes the same check. */
  function IsActiveAndValid(h: Hashing, stored: LicenseRecord): bool {
    CheckLicenseKey(h, stored.key, stored.name, stored.email)
  }

  /** An activation never loses a valid licence: after success the
      software is active, and a failed attempt leaves the activation state
      as it was. */
  lemma ActivationIsRemembered(h: Hashing, stored: LicenseRecord, key: string, name: string, email: string)
    ensures var r := ActivateSoftware(h, stored, key, name, email);
      && (r.success ==> IsActiveAndValid(h, r.stored))
      && (!r.success ==> IsActiveAndValid(h, r.stored) == IsActiveAndValid(h, stored))
      && (IsActiveAndValid(h, r.stored) <==> r.success || IsActiveAndValid(h, stored))
  {
  }

  // ---------------------------------------------------------------------------
  // The activation dialog
  // ---------------------------------------------------------------------------

  /** The three line edits of the dialog. */
  datatype Field = NameField | EmailField | KeyField

  /** The dialog: the text of each field, whether "Activate" is enabled,
      and whether the dialog was accepted. */
  datatype ActivationDialog = ActivationDialog(
    name: string, email: string, key: string, activateEnabled: bool, accepted: bool)

  /** `updateActivateButtonState`: enabled exactly when none of the three
      fields is blank once trimmed. */
  function ButtonEnabled(name: string, email: string, key: string): (enabled: bool)
    ensures enabled <==> !AllSpace(name) && !AllSpace(email) && !AllSpace(key)
  {
    !(Trimmed(name) == [] || Trimmed(email) == [] || Trimmed(key) == [])
  }

  /** `textChanged` on any of the three fields: the text changes, and the
      button state is recomputed from all three. */
  function TextChanged(d: ActivationDialog, f: Field, text: string): (r: ActivationDialog)
    ensures r.accepted == d.accepted
    ensures f == NameField ==> r.name == text && r.email == d.email && r.key == d.key
    ensures f == EmailField ==> r.email == text && r.name == d.name && r.key == d.key
    ensures f == KeyField ==> r.key == text && r.name == d.name && r.email == d.email
  {
    var d1 := match f
      case NameField => d.(name := text)
      case EmailField => d.(email := text)
      case KeyField => d.(key := text);
    d1.(activateEnabled := ButtonEnabled(d1.name, d1.email, d1.key))
  }

  /** A sequence of edits, in order. */
  function Edits(d: ActivationDialog, edits: seq<(Field, string)>): ActivationDialog
    decreases |edits|
  {
    if edits == [] then d else Edits(TextChanged(d, edits[0].0, edits[0].1), edits[1..])
  }

  /** After any edit, whatever the button's state before, "Activate" is
      enabled exactly when every field holds a non-blank text. */
  lemma {:induction false} ButtonFollowsFields(d: ActivationDialog, edits: seq<(Field, string)>)
    requires edits != []
    ensures var r := Edits(d, edits);
      r.activateEnabled <==> !AllSpace(r.name) && !AllSpace(r.email) && !AllSpace(r.key)
    decreases |edits|
  {
    if |edits| > 1 {
      ButtonFollowsFields(TextChanged(d, edits[0].0, edits[0].1), edits[1..]);
    }
  }

  /** `on_activateButton_clicked`: activate with the trimmed key, name and
      email; accept the dialog on success, stay open on failure. */
  function ActivateClicked(h: Hashing, d: ActivationDialog, stored: LicenseRecord): (r: (ActivationDialog, LicenseRecord))
    ensures var ok := CheckLicenseKey(h, Trimmed(d.key), Trimmed(d.name), Trimmed(d.email));
      && (ok ==> r.0 == d.(accepted := true)
                 && r.1 == LicenseRecord(Trimmed(d.key), Trimmed(d.name), Trimmed(d.email)))
      && (!ok ==> r.0 == d && r.1 == stored)
  {
    var a := ActivateSoftware(h, stored, Trimmed(d.key), Trimmed(d.name), Trimmed(d.email));
    (if a.success then d.(accepted := true) else d, a.stored)
  }

  /** A dialog that closes accepted leaves the software active. */
  lemma AcceptedDialogActivates(h: Hashing, d: ActivationDialog, stored: LicenseRecord)
    requires !d.accepted
    ensures var r := ActivateClicked(h, d, stored);
      r.0.accepted ==> IsActiveAndValid(h, r.1)
  {
  }
}
