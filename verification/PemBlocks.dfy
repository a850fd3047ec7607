/** Where the markers of certificate blocks are found (`pem_to_ders`,
    crates/platform-linux/src/sys/trust_anchors.rs): the exact condition under which a document is
    cut into its blocks, and what happens to the others. */
module PemBlocks {
  import opened Wrappers
  import opened Endian
  import opened Base64
  import opened Pem

  // ----- First occurrences, exactly -----

  predicate EndsIn(a: Text, p: Text) {
    |p| <= |a| && a[|a| - |p|..] == p
  }

  /** The needle laid over itself, `k` places on, agrees with itself. */
  predicate Overlaps(needle: Text, k: nat)
    requires k <= |needle|
  {
    needle[k..] == needle[..|needle| - k]
  }

  /** An occurrence that starts in `a` lies in `a`, or `a` ends in the front of a needle that runs
      on into the needle after it. */
  lemma OccursIn(a: Text, needle: Text, j: nat)
    requires j < |a|
    ensures j + |needle| <= |a| ==> (OccursAt(a + needle, needle, j) <==> OccursAt(a, needle, j))
    ensures j + |needle| > |a| ==>
      (OccursAt(a + needle, needle, j) <==> EndsIn(a, needle[..|a| - j]) && Overlaps(needle, |a| - j))
  {
    var s, n := a + needle, |needle|;
    if j + n <= |a| {
      assert s[j..j + n] == a[j..j + n];
    } else {
      var k := |a| - j;
      assert s[j..j + n] == a[j..] + needle[..n - k];
      assert needle == needle[..k] + needle[k..];
      if s[j..j + n] == needle {
        assert s[j..j + n][..k] == a[j..] && s[j..j + n][k..] == needle[..n - k];
      }
    }
  }

  /** The needle after `a` is the first one. */
  predicate Placed(a: Text, needle: Text) {
    Find(a + needle, needle) == Some(|a|)
  }

  lemma PlacedUnless(a: Text, needle: Text)
    ensures Placed(a, needle) <==> forall j :: 0 <= j < |a| ==> !OccursAt(a + needle, needle, j)
  {
    var s := a + needle;
    assert s[|a|..|a| + |needle|] == needle;
    if forall j :: 0 <= j < |a| ==> !OccursAt(s, needle, j) {
      FindIs(s, needle, |a|);
    }
  }

  /** Five dashes, something without dashes, five dashes. */
  predicate Marker(m: Text) {
    |m| > 10 && forall i :: 0 <= i < |m| ==> (m[i] == DASH <==> i < 5 || i >= |m| - 5)
  }

  lemma MarkerOverlaps(m: Text, k: nat)
    requires Marker(m) && 0 < k < |m|
    ensures Overlaps(m, k) <==> k >= |m| - 5
  {
    if k <= 5 {
      assert m[k..][5 - k] == m[5] && m[..|m| - k][5 - k] == m[5 - k];
    } else if k < |m| - 5 {
      assert m[k..][0] == m[k] && m[..|m| - k][0] == m[0];
    } else {
      assert forall i :: 0 <= i < |m| - k ==> m[k..][i] == DASH && m[..|m| - k][i] == DASH;
    }
  }

  lemma MarkerShift(m: Text)
    requires Marker(m)
    ensures m[..|m| - 5] + m == m + m[5..]
  {
    var k := |m| - 5;
    MarkerOverlaps(m, k);
    assert m[..k] + m == m[..k] + m[..5] + m[5..];
    assert m[..k] + m[k..] + m[5..] == m + m[5..];
  }

  lemma Markers()
    ensures Marker(BEGIN) && Marker(END) && |BEGIN| == 27 && |END| == 25
  {
  }

  function Spelled(s: string): Text
    requires forall i :: 0 <= i < |s| ==> s[i] as int < 128
  {
    seq(|s|, i requires 0 <= i < |s| => (s[i] as int) as Octet)
  }

  lemma MarkersSpelled()
    ensures BEGIN == Spelled("-----BEGIN CERTIFICATE-----") && END == Spelled("-----END CERTIFICATE-----")
  {
  }

  /** The text neither contains the marker nor ends in one that lacks up to five of its dashes. */
  predicate Clean(a: Text, m: Text) {
    Find(a, m).None? && forall k :: 0 <= k < |m| && k >= |m| - 5 ==> !EndsIn(a, m[..k])
  }

  /** Exactly then is a marker first found where it stands. */
  lemma PlacedExactly(a: Text, m: Text)
    requires Marker(m)
    ensures Placed(a, m) <==> Clean(a, m)
  {
    PlacedUnless(a, m);
    if Placed(a, m) {
      PlacedIsClean(a, m);
    }
    if Clean(a, m) {
      CleanIsPlaced(a, m);
    }
  }

  lemma PlacedIsClean(a: Text, m: Text)
    requires Marker(m) && forall j :: 0 <= j < |a| ==> !OccursAt(a + m, m, j)
    ensures Clean(a, m)
  {
    if Find(a, m).Some? {
      OccursIn(a, m, Find(a, m).value);
      assert false;
    }
    forall k | 0 <= k < |m| && k >= |m| - 5
      ensures !EndsIn(a, m[..k])
    {
      if EndsIn(a, m[..k]) {
        MarkerOverlaps(m, k);
        OccursIn(a, m, |a| - k);
        assert false;
      }
    }
  }

  lemma CleanIsPlaced(a: Text, m: Text)
    requires Marker(m) && Clean(a, m)
    ensures forall j :: 0 <= j < |a| ==> !OccursAt(a + m, m, j)
  {
    forall j | 0 <= j < |a|
      ensures !OccursAt(a + m, m, j)
    {
      OccursIn(a, m, j);
      if j + |m| > |a| {
        MarkerOverlaps(m, |a| - j);
      }
    }
  }

  /** What follows the first occurrence does not move it. */
  lemma FindExtends(a: Text, needle: Text, rest: Text)
    ensures Find(a + needle + rest, needle) == Some(|a|) <==> Placed(a, needle)
  {
    var short, long := a + needle, a + needle + rest;
    forall j | 0 <= j < |a|
      ensures OccursAt(long, needle, j) <==> OccursAt(short, needle, j)
    {
      assert long[j..j + |needle|] == short[j..j + |needle|];
    }
    assert long[|a|..|a| + |needle|] == needle;
    PlacedUnless(a, needle);
    if Placed(a, needle) {
      FindIs(long, needle, |a|);
    }
  }

  // ----- Documents -----

  /** A gap, then a certificate block. */
  datatype Block = Block(gap: Text, body: Text)

  function Document(blocks: seq<Block>, tail: Text): Text {
    if blocks == [] then tail
    else blocks[0].gap + BEGIN + (blocks[0].body + END + Document(blocks[1..], tail))
  }

  predicate WellPlaced(b: Block) {
    Clean(b.gap, BEGIN) && Clean(b.body, END)
  }

  /** No complete block: no marker, or an unterminated one. */
  predicate Barren(tail: Text) {
    FirstCut(tail).None?
  }

  /** The first block of a document is cut out as it was put in if and only if it is well placed. */
  lemma FirstCutExactly(b: Block, rest: Text)
    ensures FirstCut(b.gap + BEGIN + (b.body + END + rest)) == Some(Cut(b.body, rest)) <==> WellPlaced(b)
  {
    Markers();
    PlacedExactly(b.gap, BEGIN);
    PlacedExactly(b.body, END);
    var after := b.body + END + rest;
    var text := b.gap + BEGIN + after;
    FindExtends(b.gap, BEGIN, after);
    FindExtends(b.body, END, rest);
    assert text[|b.gap| + |BEGIN|..] == after;
    assert after[..|b.body|] == b.body && after[|b.body| + |END|..] == rest;
    if FirstCut(text) == Some(Cut(b.body, rest)) {
      CutLengths(text, Find(text, BEGIN).value, b.body, rest);
    }
  }

  lemma CutLengths(text: Text, start: nat, body: Text, rest: Text)
    requires FirstCut(text) == Some(Cut(body, rest)) && Find(text, BEGIN) == Some(start)
    ensures |text| == start + |BEGIN| + |body| + |END| + |rest|
    ensures Find(text[start + |BEGIN|..], END) == Some(|body|)
  {
  }

  /** All the cuts of a text. */
  function Cuts(text: Text): seq<Cut>
    decreases |text|
  {
    match FirstCut(text)
    case None => []
    case Some(cut) => [cut] + Cuts(cut.after)
  }

  /** The cuts a document was made for. */
  function Intended(blocks: seq<Block>, tail: Text): seq<Cut> {
    if blocks == [] then [] else [Cut(blocks[0].body, Document(blocks[1..], tail))] + Intended(blocks[1..], tail)
  }

  lemma CutsBegin(text: Text, first: Cut, more: seq<Cut>)
    ensures Cuts(text) == [first] + more <==> FirstCut(text) == Some(first) && Cuts(first.after) == more
  {
    if Cuts(text) == [first] + more {
      assert Cuts(text)[0] == first && Cuts(text)[1..] == more;
    }
  }

  predicate AllPlaced(blocks: seq<Block>) {
    forall i :: 0 <= i < |blocks| ==> WellPlaced(blocks[i])
  }

  lemma AllPlacedBegin(blocks: seq<Block>)
    requires blocks != []
    ensures AllPlaced(blocks) <==> WellPlaced(blocks[0]) && AllPlaced(blocks[1..])
  {
    assert forall i :: 0 < i < |blocks| ==> blocks[i] == blocks[1..][i - 1];
  }

  /** A document is cut into its blocks if and only if all of them are well placed and the tail
      adds none. */
  lemma {:induction false} CutsExactly(blocks: seq<Block>, tail: Text)
    ensures Cuts(Document(blocks, tail)) == Intended(blocks, tail) <==> AllPlaced(blocks) && Barren(tail)
    decreases |blocks|
  {
    if blocks != [] {
      var rest := Document(blocks[1..], tail);
      FirstCutExactly(blocks[0], rest);
      CutsExactly(blocks[1..], tail);
      CutsBegin(Document(blocks, tail), Cut(blocks[0].body, rest), Intended(blocks[1..], tail));
      AllPlacedBegin(blocks);
    }
  }

  function Contributions(blocks: seq<Block>): seq<Text> {
    if blocks == [] then [] else Der(blocks[0].body) + Contributions(blocks[1..])
  }

  /** Every document of well-placed blocks yields, in order, exactly the nonempty decodings of
      its blocks: a malformed block costs only itself, and a barren tail adds nothing. */
  lemma {:induction false} DocumentYields(blocks: seq<Block>, tail: Text)
    requires AllPlaced(blocks) && Barren(tail)
    ensures Ders(Document(blocks, tail)) == Contributions(blocks)
    decreases |blocks|
  {
    if blocks != [] {
      FirstCutExactly(blocks[0], Document(blocks[1..], tail));
      DocumentYields(blocks[1..], tail);
    }
  }

  // ----- Bundles -----

  /** A text without dashes cannot start a marker. */
  lemma NoDashPlaced(a: Text, needle: Text)
    requires DASH !in a && Marker(needle)
    ensures Clean(a, needle)
  {
    var s := a + needle;
    forall j | 0 <= j < |a|
      ensures !OccursAt(s, needle, j)
    {
      assert s[j] == a[j];
      assert j + |needle| <= |s| ==> s[j..j + |needle|][0] == s[j];
    }
    PlacedUnless(a, needle);
    PlacedExactly(a, needle);
  }

  lemma {:induction false} EncodeHasNoDash(b: seq<Octet>)
    ensures DASH !in Encode(b)
  {
    if |b| >= 3 {
      EncodeHasNoDash(b[3..]);
    }
  }

  lemma {:induction false} StripKeepsDash(s: Text)
    requires DASH in s
    ensures DASH in Strip(s)
  {
    if s[0] != DASH {
      StripKeepsDash(s[1..]);
    }
  }

  /** The certificates of any bundle survive: DER encoded per RFC 4648 with line breaks anywhere,
      between gaps without dashes, comes back certificate by certificate. */
  lemma {:induction false} BundleRoundTrip(certs: seq<Text>, blocks: seq<Block>)
    requires |blocks| == |certs|
    requires forall i :: 0 <= i < |certs| ==> certs[i] != [] && Strip(blocks[i].body) == Encode(certs[i]) && DASH !in blocks[i].gap
    ensures Ders(Document(blocks, [])) == certs
  {
    forall i | 0 <= i < |blocks|
      ensures WellPlaced(blocks[i])
    {
      Markers();
      NoDashPlaced(blocks[i].gap, BEGIN);
      EncodeHasNoDash(certs[i]);
      if DASH in blocks[i].body {
        StripKeepsDash(blocks[i].body);
        assert false;
      }
      NoDashPlaced(blocks[i].body, END);
    }
    DocumentYields(blocks, []);
    ContributionsOf(certs, blocks);
  }

  lemma {:induction false} ContributionsOf(certs: seq<Text>, blocks: seq<Block>)
    requires |blocks| == |certs|
    requires forall i :: 0 <= i < |certs| ==> certs[i] != [] && Strip(blocks[i].body) == Encode(certs[i])
    ensures Contributions(blocks) == certs
    decreases |blocks|
  {
    if blocks != [] {
      RoundTrip(certs[0], blocks[0].body);
      ContributionsOf(certs[1..], blocks[1..]);
    }
  }

  // ----- Blocks that are not well placed -----

  lemma OneBlock(b: Block, tail: Text)
    ensures Document([b], tail) == b.gap + BEGIN + (b.body + END + tail)
    ensures Contributions([b]) == Der(b.body)
    ensures WellPlaced(b) && Barren(tail) ==> Ders(Document([b], tail)) == Der(b.body)
  {
    assert [b][1..] == [];
    assert Document([b][1..], tail) == tail && Contributions([b][1..]) == [];
    if WellPlaced(b) && Barren(tail) {
      DocumentYields([b], tail);
    }
  }

  lemma TooShort(s: Text, needle: Text)
    requires |s| < |needle|
    ensures Find(s, needle).None?
  {
  }

  /** A dash before the first pad is malformed. */
  lemma DashRefused(s: Text, i: nat)
    requires i < |s| && s[i] == DASH && PAD !in s[..i]
    ensures Der(s) == []
  {
    RefusedExactly(s);
    assert Foreign(s[i]);
  }

  /** Text without the end marker has none with the front of one appended. */
  lemma ShortOfMarker(front: Text, k: nat)
    requires Clean(front, END) && k < |END|
    ensures Find(front + END[..k], END).None?
  {
    var s, t := front + END[..k], front + END;
    forall j: nat | OccursAt(s, END, j)
      ensures j < |front| && OccursAt(t, END, j)
    {
      assert s[j..j + |END|] == t[j..j + |END|];
    }
    Markers();
    PlacedExactly(front, END);
    PlacedUnless(front, END);
  }

  lemma SameText(a: Text, b: Text, c: Text, d: Text, e: Text)
    requires c + d == d + e
    ensures a + (b + c + d + []) == a + (b + d + e)
  {
    assert b + c + d == b + (c + d);
    assert b + d + e == b + (d + e);
  }

  lemma EmptyClean(m: Text)
    requires Marker(m)
    ensures Clean([], m)
  {
  }

  lemma MalformedFrom(front: Text, dashes: Text)
    requires PAD !in front && dashes != [] && dashes[0] == DASH
    ensures Der(front + dashes) == []
  {
    assert (front + dashes)[..|front|] == front;
    DashRefused(front + dashes, |front|);
  }

  lemma NotClean(front: Text, m: Text)
    requires Marker(m)
    ensures !Clean(front + m[..|m| - 5], m)
  {
    assert EndsIn(front + m[..|m| - 5], m[..|m| - 5]);
  }

  /** A body that ends in an end marker without its last five dashes is cut short: the document
      yields what the front of the body decodes to, although the body as a whole is malformed. */
  lemma CutShort(gap: Text, front: Text, body: Text)
    requires WellPlaced(Block(gap, front)) && PAD !in front && body == front + END[..20]
    ensures Find(body, END).None? && !Clean(body, END)
    ensures Contributions([Block(gap, body)]) == [] && Ders(Document([Block(gap, body)], [])) == Der(front)
  {
    Markers();
    ShortOfMarker(front, 20);
    NotClean(front, END);
    MalformedFrom(front, END[..20]);
    OneBlock(Block(gap, body), []);
    CutShortText(gap, front, body);
    CutShortBlock(gap, front);
  }

  lemma CutShortBlock(gap: Text, front: Text)
    requires WellPlaced(Block(gap, front))
    ensures Ders(gap + BEGIN + (front + END + END[5..])) == Der(front)
  {
    OneBlock(Block(gap, front), END[5..]);
    TooShort(END[5..], BEGIN);
  }

  lemma CutShortText(gap: Text, front: Text, body: Text)
    requires body == front + END[..20]
    ensures gap + BEGIN + (body + END + []) == gap + BEGIN + (front + END + END[5..])
  {
    Markers();
    MarkerShift(END);
    SameText(gap + BEGIN, front, END[..20], END, END[5..]);
  }

  const SPACE: Octet := 32

  /** `END CERTIFICATE` cannot follow dashes in a text that has none, nor spaces, after its 22nd
      unit. */
  lemma NoFront(s: Text, j: nat)
    requires Shaped(s) && j + 20 <= |s|
    ensures s[j..j + 20] != END[..20]
  {
    var t := s[j..j + 20];
    assert t[0] == s[j] && t[4] == s[j + 4] && t[8] == s[j + 8];
    assert END[..20][0] == DASH && END[..20][4] == DASH && END[..20][8] == SPACE;
  }

  /** Dashes at 17 to 21 only, and no space after them. */
  predicate Shaped(s: Text) {
    && |s| > 22 && (forall i :: 22 <= i < |s| ==> s[i] != DASH && s[i] != SPACE)
    && forall i :: 0 <= i < 22 ==> (s[i] == DASH <==> i >= 17)
  }

  lemma SwallowedShape(q: Text, s: Text)
    requires q != [] && DASH !in q && SPACE !in q && s == BEGIN[5..] + q
    ensures Shaped(s)
  {
    Markers();
    assert forall i :: 22 <= i < |s| ==> s[i] in q;
    assert forall i :: 0 <= i < 22 ==> s[i] == BEGIN[i + 5];
  }

  lemma NoEndAt(s: Text, j: nat)
    requires Shaped(s)
    ensures !OccursAt(s, END, j)
  {
    if j + 25 <= |s| {
      NoFront(s, j);
      assert s[j..j + 25][..20] == s[j..j + 20];
    }
  }

  lemma NotEndingIn(s: Text, k: nat)
    requires Shaped(s) && 20 <= k < 25
    ensures !EndsIn(s, END[..k])
  {
    if |s| >= k {
      NoFront(s, |s| - k);
      assert s[|s| - k..][..20] == s[|s| - k..|s| - k + 20] && END[..k][..20] == END[..20];
    }
  }

  /** Text without dashes and spaces makes no end marker out of a preceding `BEGIN CERTIFICATE-----`. */
  lemma StillClean(q: Text, s: Text)
    requires q != [] && DASH !in q && SPACE !in q && s == BEGIN[5..] + q
    ensures Clean(s, END)
  {
    SwallowedShape(q, s);
    forall j: nat
      ensures !OccursAt(s, END, j)
    {
      NoEndAt(s, j);
    }
    forall k | 20 <= k < 25
      ensures !EndsIn(s, END[..k])
    {
      NotEndingIn(s, k);
    }
  }

  lemma SwallowedText(body: Text)
    ensures BEGIN[..22] + BEGIN + (body + END + []) == [] + BEGIN + (BEGIN[5..] + body + END + [])
  {
    Markers();
    MarkerShift(BEGIN);
    Swallowed(BEGIN[..22], BEGIN, BEGIN[5..], body, END);
  }

  lemma Swallowed(front: Text, begin: Text, back: Text, body: Text, end: Text)
    requires front + begin == begin + back
    ensures front + begin + (body + end + []) == [] + begin + (back + body + end + [])
  {
    var rest := body + end + [];
    assert begin + back + rest == begin + (back + rest);
    assert back + body + end + [] == back + rest;
  }

  /** A gap that ends in a begin marker without its last five dashes swallows the marker after it:
      whatever the certificate and its line breaks, it is lost. */
  lemma LostCertificate(cert: Text, body: Text, b: Block)
    requires cert != [] && Strip(body) == Encode(cert) && SPACE !in body && b == Block(BEGIN[..22], body)
    ensures Find(b.gap, BEGIN).None? && !Clean(b.gap, BEGIN)
    ensures Contributions([b]) == [cert] && Ders(Document([b], [])) == []
  {
    EncodeHasNoDash(cert);
    if DASH in body {
      StripKeepsDash(body);
      assert false;
    }
    OneBlock(b, []);
    RoundTrip(cert, body);
    SwallowedText(body);
    SwallowedBlock(body);
    TooShort(b.gap, BEGIN);
    Markers();
    assert b.gap == [] + BEGIN[..22];
    NotClean([], BEGIN);
  }

  lemma SwallowedBlock(body: Text)
    requires body != [] && DASH !in body && SPACE !in body
    ensures Ders([] + BEGIN + (BEGIN[5..] + body + END + [])) == []
  {
    var seen := BEGIN[5..] + body;
    Markers();
    StillClean(body, seen);
    EmptyClean(BEGIN);
    TooShort([], BEGIN);
    OneBlock(Block([], seen), []);
    SwallowedMalformed(body, seen);
  }

  lemma NoPad(i: nat)
    requires i < |BEGIN|
    ensures BEGIN[i] != PAD
  {
  }

  lemma SwallowedMalformed(body: Text, seen: Text)
    requires seen == BEGIN[5..] + body
    ensures Der(seen) == []
  {
    assert seen == BEGIN[5..22] + (BEGIN[22..] + body);
    forall i | 0 <= i < 17
      ensures BEGIN[5..22][i] != PAD
    {
      NoPad(i + 5);
    }
    MalformedFrom(BEGIN[5..22], BEGIN[22..] + body);
  }
}
