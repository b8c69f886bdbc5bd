/** What a credential leaf is bound to: which fields two equal leaves must share,
    down to the attribute texts, unless a named pair of inputs collides. */
module LeafBinding {
  import opened Base
  import opened Dict
  import opened Encoding
  import opened Leaf

  /** What breaks a leaf: two Poseidon inputs with one hash, two texts whose digests
      agree modulo p, or a text whose digest is 0 modulo p. */
  datatype Evidence = Inputs(pair: (seq<Felt>, seq<Felt>)) | Texts(pair': (string, string)) | ZeroText(text: string)

  /** A text's digest modulo p, in full. */
  function TextResidue(h: Hashes, text: string): nat {
    FromBE(h.keccak(h.utf8(text))) % PRIME
  }

  predicate Breaks(h: Hashes, e: Evidence) {
    match e
    case Inputs(pair) => Collides(h.poseidon, pair)
    case Texts(pair) => pair.0 != pair.1 && TextResidue(h, pair.0) == TextResidue(h, pair.1)
    case ZeroText(text) => TextResidue(h, text) == 0
  }

  // ---- Attribute values ---------------------------------------------------------------------

  /** The included values in the order of their names. */
  function OrderedValues(values: Attrs, exclude: seq<string>): (r: seq<string>)
    ensures |r| == |CanonicalNames(values, exclude)|
  {
    var names := CanonicalNames(values, exclude);
    seq(|names|, i requires 0 <= i < |names| => Get(values, names[i]).GetOr(""))
  }

  /** The felts are the residues of those values, one by one. */
  lemma EncodedResidue(h: Hashes, values: Attrs, exclude: seq<string>, i: nat)
    requires i < |CanonicalNames(values, exclude)|
    ensures Encode(h, values, exclude)[i] == TextResidue(h, OrderedValues(values, exclude)[i])
  {
  }

  /** The circuit's attribute `i` of a list of texts: 0 beyond the texts. */
  function Slot(h: Hashes, texts: seq<string>, i: nat): nat {
    if i < |texts| then TextResidue(h, texts[i]) else 0
  }

  lemma PaddedSlot(h: Hashes, values: Attrs, i: nat)
    requires |Encode(h, values, RESERVED)| <= CIRCUIT_ATTRS && i < CIRCUIT_ATTRS
    ensures PaddedAttrs(Encode(h, values, RESERVED))[i] == Slot(h, OrderedValues(values, RESERVED), i)
  {
    var felts := Encode(h, values, RESERVED);
    if i < |felts| {
      EncodedResidue(h, values, RESERVED, i);
      assert PaddedAttrs(felts)[i] == felts[i];
    }
  }

  /** Two lists of texts that fill the same slots are equal, or two texts agree modulo
      p, or one is 0 modulo p. */
  function CompareTexts(h: Hashes, a: seq<string>, b: seq<string>, i: nat): (r: Option<Evidence>)
    requires i <= |a| <= CIRCUIT_ATTRS && i <= |b| <= CIRCUIT_ATTRS && a[..i] == b[..i]
    requires forall j :: 0 <= j < CIRCUIT_ATTRS ==> Slot(h, a, j) == Slot(h, b, j)
    ensures r.None? ==> a == b
    ensures r.Some? ==> Breaks(h, r.value)
    decreases |a| - i
  {
    if i == |a| && i == |b| then
      assert a[..i] == a && b[..i] == b;
      None
    else
      assert Slot(h, a, i) == Slot(h, b, i);
      if i == |a| then Some(ZeroText(b[i]))
      else if i == |b| then Some(ZeroText(a[i]))
      else if a[i] != b[i] then Some(Texts((a[i], b[i])))
      else
        assert a[..i + 1] == a[..i] + [a[i]] && b[..i + 1] == b[..i] + [b[i]];
        CompareTexts(h, a, b, i + 1)
  }

  /** Two maps with the same included names and the same values in name order agree on
      every included name. */
  lemma OrderedAgree(a: Attrs, b: Attrs, exclude: seq<string>)
    requires NoDup(a) && NoDup(b) && OrderedValues(a, exclude) == OrderedValues(b, exclude)
    requires forall k :: k !in exclude ==> (Has(a, k) <==> Has(b, k))
    ensures forall k :: k !in exclude ==> Get(a, k) == Get(b, k)
  {
    var ca, cb := CanonicalNames(a, exclude), CanonicalNames(b, exclude);
    SameNames(a, b, exclude);
    forall k | k !in exclude ensures Get(a, k) == Get(b, k) {
      CanonicalMembers(a, exclude, k);
      if Has(a, k) {
        var i :| 0 <= i < |ca| && ca[i] == k;
        assert OrderedValues(a, exclude)[i] == OrderedValues(b, exclude)[i];
        EncodeLooksUpPresent(a, exclude, i);
        EncodeLooksUpPresent(b, exclude, i);
      }
    }
  }

  lemma SameNames(a: Attrs, b: Attrs, exclude: seq<string>)
    requires NoDup(a) && NoDup(b) && forall k :: k !in exclude ==> (Has(a, k) <==> Has(b, k))
    ensures CanonicalNames(a, exclude) == CanonicalNames(b, exclude)
  {
    CanonicalOrder(a, exclude);
    CanonicalOrder(b, exclude);
    AscendingUnique(CanonicalNames(a, exclude), CanonicalNames(b, exclude));
  }

  /** Encodings bind the values: maps with the same included names that encode alike
      have the same value under every one of them, or two texts agree modulo p. */
  function CompareEncodings(h: Hashes, a: Attrs, b: Attrs, exclude: seq<string>): (r: Option<Evidence>)
    requires NoDup(a) && NoDup(b) && Encode(h, a, exclude) == Encode(h, b, exclude)
    requires forall k :: k !in exclude ==> (Has(a, k) <==> Has(b, k))
    ensures r.None? ==> forall k :: k !in exclude ==> Get(a, k) == Get(b, k)
    ensures r.Some? ==> r.value.Texts? && Breaks(h, r.value)
  {
    var va, vb := OrderedValues(a, exclude), OrderedValues(b, exclude);
    assert |va| == |vb| by { SameNames(a, b, exclude); }
    assert forall i :: 0 <= i < |va| ==> TextResidue(h, va[i]) == TextResidue(h, vb[i]) by {
      EncodedResidues(h, a, b, exclude);
    }
    if va == vb then
      OrderedAgree(a, b, exclude);
      None
    else
      var i := FirstDifferent(va, vb);
      Some(Texts((va[i], vb[i])))
  }

  lemma EncodedResidues(h: Hashes, a: Attrs, b: Attrs, exclude: seq<string>)
    requires Encode(h, a, exclude) == Encode(h, b, exclude)
    ensures forall i :: 0 <= i < |OrderedValues(a, exclude)| ==>
      TextResidue(h, OrderedValues(a, exclude)[i]) == TextResidue(h, OrderedValues(b, exclude)[i])
  {
    forall i | 0 <= i < |OrderedValues(a, exclude)|
      ensures TextResidue(h, OrderedValues(a, exclude)[i]) == TextResidue(h, OrderedValues(b, exclude)[i])
    {
      EncodedResidue(h, a, exclude, i);
      EncodedResidue(h, b, exclude, i);
    }
  }

  /** The first place at which two lists differ. */
  function FirstDifferent(a: seq<string>, b: seq<string>): (i: nat)
    requires |a| == |b| && a != b
    ensures i < |a| && a[i] != b[i]
  {
    if a[0] != b[0] then 0
    else
      assert a == [a[0]] + a[1..] && b == [b[0]] + b[1..];
      1 + FirstDifferent(a[1..], b[1..])
  }

  // ---- Whole leaves ---------------------------------------------------------------------------

  /** The same credDef bytes modulo p, the same credential id, the same values in name order. */
  ghost predicate SameContents(cd: Id, credId: string, a: Attrs, cd': Id, credId': string, b: Attrs) {
    && IdBytes(cd).Some? && IdBytes(cd').Some?
    && FromBE(IdBytes(cd).value) % PRIME == FromBE(IdBytes(cd').value) % PRIME
    && credId == credId' && OrderedValues(a, RESERVED) == OrderedValues(b, RESERVED)
  }

  lemma IdResidue(id: Id)
    requires IdToFelt(id).Some?
    ensures IdBytes(id).Some? && IdToFelt(id).value == FromBE(IdBytes(id).value) % PRIME
  {
  }

  lemma CredIdResidue(h: Hashes, credId: string)
    ensures IdToFelt(Raw(h.keccak(h.utf8(credId)))) == Some(TextResidue(h, credId))
  {
    assert |h.keccak(h.utf8(credId))| == 32;
  }

  lemma SameSlots(h: Hashes, a: Attrs, b: Attrs)
    requires |Encode(h, a, RESERVED)| <= CIRCUIT_ATTRS && |Encode(h, b, RESERVED)| <= CIRCUIT_ATTRS
    requires PaddedAttrs(Encode(h, a, RESERVED)) == PaddedAttrs(Encode(h, b, RESERVED))
    ensures forall j :: 0 <= j < CIRCUIT_ATTRS ==>
      Slot(h, OrderedValues(a, RESERVED), j) == Slot(h, OrderedValues(b, RESERVED), j)
  {
    forall j | 0 <= j < CIRCUIT_ATTRS
      ensures Slot(h, OrderedValues(a, RESERVED), j) == Slot(h, OrderedValues(b, RESERVED), j)
    {
      PaddedSlot(h, a, j);
      PaddedSlot(h, b, j);
    }
  }

  /** Equal leaves have the same contents, or a named pair of inputs collides. */
  function CompareContents(h: Hashes, cd: Id, credId: string, a: Attrs, cd': Id, credId': string, b: Attrs)
    : (r: Option<Evidence>)
    requires LeafOf(h, cd, credId, a).Some? && LeafOf(h, cd, credId, a) == LeafOf(h, cd', credId', b)
    ensures r.None? ==> SameContents(cd, credId, a, cd', credId', b)
    ensures r.Some? ==> Breaks(h, r.value)
  {
    var cr, cr' := Raw(h.keccak(h.utf8(credId))), Raw(h.keccak(h.utf8(credId')));
    var attrs, attrs' := PaddedAttrs(Encode(h, a, RESERVED)), PaddedAttrs(Encode(h, b, RESERVED));
    var pair := CompareLeaves(h, cd, cr, attrs, cd', cr', attrs');
    if pair.Some? then Some(Inputs(pair.value))
    else
      IdResidue(cd);
      IdResidue(cd');
      CredIdResidue(h, credId);
      CredIdResidue(h, credId');
      if credId != credId' then Some(Texts((credId, credId')))
      else
        SameSlots(h, a, b);
        CompareTexts(h, OrderedValues(a, RESERVED), OrderedValues(b, RESERVED), 0)
  }

  /** Two leaves `add_issued` publishes: equal ones name the same credDef modulo p, the
      same credential and the same values in name order, or inputs collide. */
  function ComparePublished(h: Hashes, cd: Bytes, credId: string, a: Attrs, cd': Bytes, credId': string, b: Attrs)
    : (r: Option<Evidence>)
    requires PublishedLeaf(h, cd, credId, a).Some?
    requires PublishedLeaf(h, cd, credId, a) == PublishedLeaf(h, cd', credId', b)
    ensures r.None? ==>
      && FromBE(cd) % PRIME == FromBE(cd') % PRIME && credId == credId'
      && OrderedValues(a, RESERVED) == OrderedValues(b, RESERVED)
    ensures r.Some? ==> Breaks(h, r.value)
  {
    CompareContents(h, Raw(cd), credId, a, Raw(cd'), credId', b)
  }

  /** The same of two leaves that are signed, on the bytes their credDef texts decode to. */
  function CompareSigned(h: Hashes, cd: string, credId: string, a: Attrs, cd': string, credId': string, b: Attrs)
    : (r: Option<Evidence>)
    requires SignedLeaf(h, cd, credId, a).Some? && SignedLeaf(h, cd, credId, a) == SignedLeaf(h, cd', credId', b)
    ensures r.None? ==> SameContents(Hex(cd), credId, a, Hex(cd'), credId', b)
    ensures r.Some? ==> Breaks(h, r.value)
  {
    CompareContents(h, Hex(cd), credId, a, Hex(cd'), credId', b)
  }

  /** The published leaf from the hash functions alone: the tag 1, the credDef bytes
      and the credential id's digest modulo p, and the hash of sixteen slots, filled
      in name order. */
  lemma LeafFormula(h: Hashes, cd: Bytes, credId: string, a: Attrs)
    requires |cd| == 32
    ensures var texts := OrderedValues(a, RESERVED);
      PublishedLeaf(h, cd, credId, a) ==
      if |texts| > 16 then None
      else Some(h.poseidon([1, FromBE(cd) % PRIME, TextResidue(h, credId),
                            h.poseidon(seq(16, i requires 0 <= i < 16 => Slot(h, texts, i)))]))
  {
    var felts, texts := Encode(h, a, RESERVED), OrderedValues(a, RESERVED);
    CredIdResidue(h, credId);
    if |felts| <= 16 {
      var slots := seq(16, i requires 0 <= i < 16 => Slot(h, texts, i));
      forall i | 0 <= i < 16 ensures PaddedAttrs(felts)[i] == slots[i] {
        PaddedSlot(h, a, i);
      }
      assert PaddedAttrs(felts) == slots;
    }
  }

  /** With the same included names, equal published leaves have the same value under
      every one of them, or inputs collide. */
  lemma LeafBindsValues(h: Hashes, cd: Bytes, credId: string, a: Attrs, cd': Bytes, credId': string, b: Attrs)
    requires NoDup(a) && NoDup(b) && forall k :: k !in RESERVED ==> (Has(a, k) <==> Has(b, k))
    requires PublishedLeaf(h, cd, credId, a).Some?
    requires PublishedLeaf(h, cd, credId, a) == PublishedLeaf(h, cd', credId', b)
    ensures match ComparePublished(h, cd, credId, a, cd', credId', b)
      case Some(e) => Breaks(h, e)
      case None => FromBE(cd) % PRIME == FromBE(cd') % PRIME && credId == credId'
                   && forall k :: k !in RESERVED ==> Get(a, k) == Get(b, k)
  {
    if ComparePublished(h, cd, credId, a, cd', credId', b).None? {
      OrderedAgree(a, b, RESERVED);
    }
  }

  /** The names themselves are not hashed: one value under either of two names gives
      one leaf. */
  lemma NamesNotBound(h: Hashes, cd: Bytes, credId: string, n: string, m: string, v: string)
    requires n !in RESERVED && m !in RESERVED
    ensures PublishedLeaf(h, cd, credId, [(n, v)]) == PublishedLeaf(h, cd, credId, [(m, v)])
  {
    OneName(h, n, v);
    OneName(h, m, v);
  }

  /** The three reserved names, and only they, stay out of the leaf: whatever they are
      set to, the leaf is the same. */
  lemma ReservedIgnored(h: Hashes, cd: Bytes, credId: string, a: Attrs, name: string, v: string)
    requires NoDup(a)
    ensures name in RESERVED <==> name == "kanonCredId" || name == "kanonZkSig" || name == "kanonZkProof"
    ensures name in RESERVED ==> PublishedLeaf(h, cd, credId, Set(a, name, v)) == PublishedLeaf(h, cd, credId, a)
    ensures name !in RESERVED ==> name in CanonicalNames(Set(a, name, v), RESERVED)
  {
    assert RESERVED[0] == "kanonCredId" && RESERVED[1] == "kanonZkSig" && RESERVED[2] == "kanonZkProof";
    SetKeys(a, name, v);
    GetSet(a, name, v, name);
    if name in RESERVED {
      forall k | k !in RESERVED ensures Get(Set(a, name, v), k) == Get(a, k) {
        GetSet(a, name, v, k);
      }
      EncodeIndependent(h, Set(a, name, v), a, RESERVED);
    } else {
      CanonicalMembers(Set(a, name, v), RESERVED, name);
    }
  }

  lemma OneName(h: Hashes, n: string, v: string)
    requires n !in RESERVED
    ensures Encode(h, [(n, v)], RESERVED) == [ValueToFelt(h, v)]
  {
    var values: Attrs := [(n, v)];
    assert Keys(values) == [n];
    assert Included([n], RESERVED) == [n] + Included([], RESERVED) == [n];
    assert SortNames([n]) == InsertName(n, []) == [n];
    assert CanonicalNames(values, RESERVED) == [n] && Get(values, n) == Some(v);
  }

  // ---- The other leaf and the order -------------------------------------------------------------

  /** Equal keccak leaves come from the same 32 bytes, or two keccak inputs collide. */
  function CompareDerived(keccak: Keccak, a: Id, b: Id): (r: Option<(Bytes, Bytes)>)
    requires DeriveLeaf(keccak, a).Some? && DeriveLeaf(keccak, a) == DeriveLeaf(keccak, b)
    ensures r.None? ==> IdBytes(a).Some? && IdBytes(a) == IdBytes(b)
    ensures r.Some? ==> Collides(keccak, r.value)
  {
    var x, y := IdBytes(a).value, IdBytes(b).value;
    if x == y then None
    else if keccak(x) == keccak(y) then Some((x, y))
    else Some((keccak(x), keccak(y)))
  }

  /** The names agree before place `i`, where a ends or has the smaller character. */
  predicate SmallerFrom(a: string, b: string, i: nat) {
    i <= |a| && i < |b| && a[..i] == b[..i] && (i == |a| || a[i] < b[i])
  }

  /** The name order is the lexicographic order by characters. */
  lemma {:induction false} NameOrderIsLexicographic(a: string, b: string)
    ensures NameLess(a, b) <==> exists i: nat :: SmallerFrom(a, b, i)
  {
    if NameLess(a, b) {
      var i := SmallerPlace(a, b);
    }
    if i: nat :| SmallerFrom(a, b, i) {
      SmallerIsLess(a, b, i);
    }
  }

  lemma {:induction false} SmallerPlace(a: string, b: string) returns (i: nat)
    requires NameLess(a, b)
    ensures SmallerFrom(a, b, i)
  {
    if a == [] || a[0] < b[0] {
      i := 0;
    } else {
      var j := SmallerPlace(a[1..], b[1..]);
      i := j + 1;
      assert a[..i] == [a[0]] + a[1..][..j] && b[..i] == [b[0]] + b[1..][..j];
    }
  }

  lemma {:induction false} SmallerIsLess(a: string, b: string, i: nat)
    requires SmallerFrom(a, b, i)
    ensures NameLess(a, b)
  {
    if i > 0 {
      assert a[0] == a[..i][0] == b[..i][0] == b[0];
      assert a[1..][..i - 1] == a[..i][1..] && b[1..][..i - 1] == b[..i][1..];
      SmallerIsLess(a[1..], b[1..], i - 1);
    }
  }
}
