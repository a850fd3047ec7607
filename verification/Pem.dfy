/** Certificate blocks of a PEM document (`pem_to_ders`,
    crates/platform-linux/src/sys/trust_anchors.rs; section 5 of RFC 7468). */
module Pem {
  import opened Wrappers
  import opened Endian
  import opened Base64

  type Text = seq<Octet>

  /** `-----BEGIN CERTIFICATE-----` */
  const BEGIN: Text := [45, 45, 45, 45, 45, 66, 69, 71, 73, 78, 32, 67, 69, 82, 84, 73, 70, 73, 67, 65, 84, 69, 45, 45, 45, 45, 45]

  /** `-----END CERTIFICATE-----` */
  const END: Text := [45, 45, 45, 45, 45, 69, 78, 68, 32, 67, 69, 82, 84, 73, 70, 73, 67, 65, 84, 69, 45, 45, 45, 45, 45]

  const DASH: Octet := 45

  // ----- First occurrences -----

  predicate OccursAt(s: Text, needle: Text, i: nat) {
    i + |needle| <= |s| && s[i..i + |needle|] == needle
  }

  /** `str::find`, from index `i` on. */
  function FindFrom(s: Text, needle: Text, i: nat): (r: Option<nat>)
    requires i <= |s|
    ensures r.Some? ==> r.value >= i && OccursAt(s, needle, r.value)
    ensures r.Some? ==> forall j :: i <= j < r.value ==> !OccursAt(s, needle, j)
    ensures r.None? ==> forall j :: i <= j ==> !OccursAt(s, needle, j)
    decreases |s| - i
  {
    if OccursAt(s, needle, i) then Some(i) else if i == |s| then None else FindFrom(s, needle, i + 1)
  }

  function Find(s: Text, needle: Text): Option<nat> {
    FindFrom(s, needle, 0)
  }

  lemma FindIs(s: Text, needle: Text, i: nat)
    requires OccursAt(s, needle, i) && forall j :: 0 <= j < i ==> !OccursAt(s, needle, j)
    ensures Find(s, needle) == Some(i)
  {
  }

  // ----- The extraction -----

  /** What one block contributes: its decoding, unless that fails or is empty. */
  function Kept(der: Option<Text>): seq<Text> {
    if der.None? || der.value == [] then [] else [der.value]
  }

  function Der(body: Text): seq<Text> {
    Kept(Decode(body))
  }

  /** The first block's body and what follows it; nothing without both of its markers. */
  datatype Cut = Cut(body: Text, after: Text)

  function FirstCut(text: Text): (r: Option<Cut>)
    ensures r.Some? ==> |r.value.after| < |text|
  {
    match Find(text, BEGIN)
    case None => None
    case Some(start) =>
      var after := text[start + |BEGIN|..];
      match Find(after, END)
      case None => None
      case Some(end) => Some(Cut(after[..end], after[end + |END|..]))
  }

  function Ders(text: Text): seq<Text>
    decreases |text|
  {
    match FirstCut(text)
    case None => []
    case Some(cut) => Der(cut.body) + Ders(cut.after)
  }

  lemma TakeBlock(out: seq<Text>, rest: Text)
    ensures match FirstCut(rest)
      case None => Ders(rest) == []
      case Some(cut) => out + Ders(rest) == out + Der(cut.body) + Ders(cut.after)
  {
  }

  /** `pem_to_ders`: each turn drops everything up to the end of one block. */
  method PemToDers(text: Text) returns (out: seq<Text>)
    ensures out == Ders(text)
  {
    out := [];
    var rest := text;
    while true
      invariant Ders(text) == out + Ders(rest)
      decreases |rest|
    {
      var cut := FirstCut(rest);
      if cut.None? {
        break;
      }
      var der := B64Decode(cut.value.body);
      TakeBlock(out, rest);
      out := out + Kept(der);
      rest := cut.value.after;
    }
  }
}
