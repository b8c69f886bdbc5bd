/** Attribute encoding and the credential leaf: attributes.py, the pure part of
    zk_issuer.py, and the leaf of mode_b.py. */
module Leaf {
  import opened Base
  import opened Dict
  import opened Encoding

  type Attrs = Dict<string, string>

  /** keccak256, UTF-8 and Poseidon, abstract. */
  datatype Hashes = Hashes(keccak: Keccak, utf8: string -> Bytes, poseidon: PoseidonHash)

  const CRED_ID_NAME := "kanonCredId"
  const SIG_NAME := "kanonZkSig"
  const PROOF_NAME := "kanonZkProof"
  const RESERVED := [CRED_ID_NAME, SIG_NAME, PROOF_NAME]
  const CIRCUIT_ATTRS := 16
  const LEAF_TAG: Felt := 1

  // ---- Identifiers -------------------------------------------------------------------

  /** An identifier argument: text or raw bytes. */
  datatype Id = Hex(text: string) | Raw(bytes: Bytes)

  /** The checks shared by `derive_leaf` and `cred_id_to_felt`: 64 characters of
      text or 32 bytes, else ValueError. */
  function IdBytes(id: Id): Option<Bytes> {
    match id
    case Hex(text) => var s := StripPrefix(text); if |s| != 64 then None else FromHex(s)
    case Raw(bytes) => if |bytes| != 32 then None else Some(bytes)
  }

  /** `derive_leaf`: keccak of keccak. */
  function DeriveLeaf(keccak: Keccak, id: Id): Option<Digest> {
    var b := IdBytes(id);
    if b.None? then None else Some(keccak(keccak(b.value)))
  }

  /** `cred_id_to_felt`. */
  function IdToFelt(id: Id): Option<Felt> {
    var b := IdBytes(id);
    if b.None? then None else Some(ToFelt(FromBE(b.value)))
  }

  /** `_cred_def_id_bytes`: exactly 32 bytes once decoded. */
  function CredDefBytes(id: Id): (r: Option<Bytes>)
    ensures r.Some? ==> |r.value| == 32
  {
    var b := if id.Hex? then FromHex(StripPrefix(id.text)) else Some(id.bytes);
    if b.Some? && |b.value| == 32 then b else None
  }

  // ---- Canonical order ----------------------------------------------------------------

  /** Python's `<` on strings. */
  predicate NameLess(a: string, b: string) {
    b != [] && (a == [] || a[0] < b[0] || (a[0] == b[0] && NameLess(a[1..], b[1..])))
  }

  lemma {:induction false} NameOrder(a: string, b: string)
    ensures NameLess(a, b) ==> !NameLess(b, a) && a != b
    ensures !NameLess(a, b) && !NameLess(b, a) ==> a == b
  {
    if a != [] && b != [] {
      NameOrder(a[1..], b[1..]);
      assert a == [a[0]] + a[1..] && b == [b[0]] + b[1..];
    }
  }

  lemma {:induction false} NameTransitive(a: string, b: string, c: string)
    requires NameLess(a, b) && NameLess(b, c)
    ensures NameLess(a, c)
  {
    if a != [] && a[0] == b[0] == c[0] {
      NameTransitive(a[1..], b[1..], c[1..]);
    }
  }

  function InsertName(n: string, names: seq<string>): seq<string> {
    if names == [] || NameLess(n, names[0]) then [n] + names else [names[0]] + InsertName(n, names[1..])
  }

  /** `sorted(names)`. */
  function SortNames(names: seq<string>): seq<string> {
    if names == [] then [] else InsertName(names[0], SortNames(names[1..]))
  }

  /** Strictly ascending. */
  ghost predicate Ascending(names: seq<string>) {
    forall i, j :: 0 <= i < j < |names| ==> NameLess(names[i], names[j])
  }

  lemma {:induction false} InsertMembers(n: string, names: seq<string>, x: string)
    ensures x in InsertName(n, names) <==> x == n || x in names
  {
    if names != [] && !NameLess(n, names[0]) {
      InsertMembers(n, names[1..], x);
      assert names == [names[0]] + names[1..];
    }
  }

  lemma {:induction false} InsertAscending(n: string, names: seq<string>)
    requires Ascending(names) && n !in names
    ensures Ascending(InsertName(n, names))
  {
    if names != [] {
      var r := InsertName(n, names);
      if NameLess(n, names[0]) {
        forall j | 1 <= j < |r| ensures NameLess(n, r[j]) {
          assert r[j] == names[j - 1];
          if j > 1 { NameTransitive(n, names[0], names[j - 1]); }
        }
      } else {
        var t := InsertName(n, names[1..]);
        InsertAscending(n, names[1..]);
        NameOrder(n, names[0]);
        forall j | 1 <= j < |r| ensures NameLess(names[0], r[j]) {
          assert r[j] == t[j - 1];
          InsertMembers(n, names[1..], t[j - 1]);
          if t[j - 1] != n {
            var i :| 0 <= i < |names[1..]| && names[1..][i] == t[j - 1];
            assert names[i + 1] == t[j - 1];
          }
        }
        forall i, j | 1 <= i < j < |r| ensures NameLess(r[i], r[j]) {
          assert r[i] == t[i - 1] && r[j] == t[j - 1];
        }
      }
    }
  }

  lemma {:induction false} SortMembers(names: seq<string>, x: string)
    ensures x in SortNames(names) <==> x in names
  {
    if names != [] {
      SortMembers(names[1..], x);
      InsertMembers(names[0], SortNames(names[1..]), x);
      assert names == [names[0]] + names[1..];
    }
  }

  ghost predicate Distinct(names: seq<string>) {
    forall i, j :: 0 <= i < j < |names| ==> names[i] != names[j]
  }

  lemma {:induction false} SortAscending(names: seq<string>)
    requires Distinct(names)
    ensures Ascending(SortNames(names))
  {
    if names != [] {
      SortAscending(names[1..]);
      SortMembers(names[1..], names[0]);
      InsertAscending(names[0], SortNames(names[1..]));
    }
  }

  /** Ascending lists with the same members are equal. */
  lemma {:induction false} AscendingUnique(a: seq<string>, b: seq<string>)
    requires Ascending(a) && Ascending(b) && forall x :: x in a <==> x in b
    ensures a == b
  {
    if a != [] {
      assert a[0] in b;
    }
    if b != [] {
      assert b[0] in a;
    }
    if a != [] && b != [] {
      var i :| 0 <= i < |b| && b[i] == a[0];
      var j :| 0 <= j < |a| && a[j] == b[0];
      if i > 0 && j > 0 {
        NameOrder(a[0], b[0]);
        assert false;
      }
      var a', b' := a[1..], b[1..];
      assert a == [a[0]] + a' && b == [b[0]] + b';
      forall x ensures x in a' <==> x in b' {
        assert x in a <==> x in b;
        NameOrder(a[0], a[0]);
        assert a[0] !in a' && b[0] !in b';
      }
      AscendingUnique(a', b');
    }
  }

  // ---- Encoding -----------------------------------------------------------------------

  /** `attr_value_to_felt`. */
  function ValueToFelt(h: Hashes, value: string): Felt {
    ToFelt(FromBE(h.keccak(h.utf8(value))))
  }

  function Included(names: seq<string>, exclude: seq<string>): seq<string> {
    if names == [] then []
    else (if names[0] in exclude then [] else [names[0]]) + Included(names[1..], exclude)
  }

  lemma {:induction false} IncludedMembers(names: seq<string>, exclude: seq<string>, x: string)
    ensures x in Included(names, exclude) <==> x in names && x !in exclude
  {
    if names != [] {
      IncludedMembers(names[1..], exclude, x);
      assert names == [names[0]] + names[1..];
    }
  }

  lemma {:induction false} IncludedDistinct(names: seq<string>, exclude: seq<string>)
    requires Distinct(names)
    ensures Distinct(Included(names, exclude))
  {
    if names != [] {
      IncludedDistinct(names[1..], exclude);
      IncludedMembers(names[1..], exclude, names[0]);
    }
  }

  function CanonicalNames(values: Attrs, exclude: seq<string>): seq<string> {
    SortNames(Included(Keys(values), exclude))
  }

  lemma CanonicalMembers(values: Attrs, exclude: seq<string>, x: string)
    ensures x in CanonicalNames(values, exclude) <==> Has(values, x) && x !in exclude
  {
    SortMembers(Included(Keys(values), exclude), x);
    IncludedMembers(Keys(values), exclude, x);
    HasIndex(values, x);
    if Has(values, x) {
      var i :| 0 <= i < |values| && values[i].0 == x;
      assert Keys(values)[i] == x;
    }
  }

  /** The encoded names are exactly the included ones, in strictly ascending order. */
  lemma CanonicalOrder(values: Attrs, exclude: seq<string>)
    requires NoDup(values)
    ensures Ascending(CanonicalNames(values, exclude))
    ensures forall x :: x in CanonicalNames(values, exclude) <==> Has(values, x) && x !in exclude
  {
    IncludedDistinct(Keys(values), exclude);
    SortAscending(Included(Keys(values), exclude));
    forall x ensures x in CanonicalNames(values, exclude) <==> Has(values, x) && x !in exclude {
      CanonicalMembers(values, exclude, x);
    }
  }

  /** `encode_attributes_canonical`: the values in the order of their sorted names. */
  function Encode(h: Hashes, values: Attrs, exclude: seq<string>): (r: seq<Felt>)
    ensures |r| == |CanonicalNames(values, exclude)|
  {
    var names := CanonicalNames(values, exclude);
    seq(|names|, i requires 0 <= i < |names| => ValueToFelt(h, Get(values, names[i]).GetOr("")))
  }

  /** Every looked-up name is present, so no lookup raises. */
  lemma EncodeLooksUpPresent(values: Attrs, exclude: seq<string>, i: nat)
    requires i < |CanonicalNames(values, exclude)|
    ensures Get(values, CanonicalNames(values, exclude)[i]).Some?
  {
    CanonicalMembers(values, exclude, CanonicalNames(values, exclude)[i]);
  }

  /** Two dicts with the same values outside the excluded names encode alike,
      whatever their insertion order. */
  lemma EncodeIndependent(h: Hashes, a: Attrs, b: Attrs, exclude: seq<string>)
    requires NoDup(a) && NoDup(b)
    requires forall k :: k !in exclude ==> Get(a, k) == Get(b, k)
    ensures Encode(h, a, exclude) == Encode(h, b, exclude)
  {
    var ca, cb := CanonicalNames(a, exclude), CanonicalNames(b, exclude);
    CanonicalOrder(a, exclude);
    CanonicalOrder(b, exclude);
    forall x ensures x in ca <==> x in cb {
      assert x !in exclude ==> Get(a, x) == Get(b, x);
    }
    AscendingUnique(ca, cb);
    forall i | 0 <= i < |ca| ensures Get(a, ca[i]) == Get(b, ca[i]) {
      assert ca[i] in ca;
      CanonicalMembers(a, exclude, ca[i]);
    }
  }

  /** The felts right-padded with zeros to the circuit's width. */
  function PaddedAttrs(attrs: seq<Felt>): (r: seq<Felt>)
    ensures |attrs| <= CIRCUIT_ATTRS ==> |r| == CIRCUIT_ATTRS
  {
    if |attrs| >= CIRCUIT_ATTRS then attrs else attrs + seq(CIRCUIT_ATTRS - |attrs|, i => 0)
  }

  /** `pad_attrs_to_circuit`: ValueError above 16. */
  method PadAttrs(attrs: seq<int>) returns (r: Option<seq<Felt>>)
    ensures r.None? <==> |attrs| > CIRCUIT_ATTRS
    ensures r.Some? ==> r.value == PaddedAttrs(seq(|attrs|, i requires 0 <= i < |attrs| => ToFelt(attrs[i])))
  {
    if |attrs| > CIRCUIT_ATTRS {
      return None;
    }
    var out: seq<Felt> := seq(|attrs|, i requires 0 <= i < |attrs| => ToFelt(attrs[i]));
    ghost var felts := out;
    ghost var z := 0;
    while |out| < CIRCUIT_ATTRS
      invariant |out| <= CIRCUIT_ATTRS && |out| == |attrs| + z && out == felts + seq(z, i => 0)
    {
      out := out + [0];
      z := z + 1;
    }
    return Some(out);
  }

  // ---- The leaf ------------------------------------------------------------------------

  /** `compute_zk_leaf`: ValueError unless 16 attributes and two 32-byte identifiers. */
  function ZkLeaf(h: Hashes, credDefId: Id, credId: Id, attributes: seq<Felt>): Option<Felt> {
    if |attributes| != CIRCUIT_ATTRS then None
    else
      var cd, cr := IdToFelt(credDefId), IdToFelt(credId);
      if cd.None? || cr.None? then None
      else Some(h.poseidon(LeafElements(h, cd.value, cr.value, attributes)))
  }

  /** The felts the leaf hashes: the tag, both identifiers, and the attributes' hash. */
  function LeafElements(h: Hashes, cd: Felt, cr: Felt, attributes: seq<Felt>): (r: seq<Felt>)
    ensures |r| == 4 && r[0] == LEAF_TAG
  {
    [LEAF_TAG, cd, cr, h.poseidon(attributes)]
  }

  /** Equal leaves name the same credDef, the same credential and the same sixteen
      attributes, or two Poseidon inputs collide. */
  function CompareLeaves(h: Hashes, cd: Id, cr: Id, attrs: seq<Felt>, cd': Id, cr': Id, attrs': seq<Felt>)
    : (r: Option<(seq<Felt>, seq<Felt>)>)
    requires ZkLeaf(h, cd, cr, attrs).Some? && ZkLeaf(h, cd, cr, attrs) == ZkLeaf(h, cd', cr', attrs')
    ensures r.None? ==> IdToFelt(cd) == IdToFelt(cd') && IdToFelt(cr) == IdToFelt(cr') && attrs == attrs'
    ensures r.Some? ==> Collides(h.poseidon, r.value)
  {
    var a := LeafElements(h, IdToFelt(cd).value, IdToFelt(cr).value, attrs);
    var b := LeafElements(h, IdToFelt(cd').value, IdToFelt(cr').value, attrs');
    if a != b then Some((a, b))
    else
      assert a[1] == b[1] && a[2] == b[2] && a[3] == b[3];
      if attrs != attrs' then Some((attrs, attrs')) else None
  }

  /** The leaf from a credential id text and an attribute map, as both callers build it. */
  function LeafOf(h: Hashes, credDefId: Id, credId: string, attrs: Attrs): Option<Felt> {
    var felts := Encode(h, attrs, RESERVED);
    if |felts| > CIRCUIT_ATTRS then None
    else ZkLeaf(h, credDefId, Raw(h.keccak(h.utf8(credId))), PaddedAttrs(felts))
  }

  /** The leaf `add_issued` publishes, from the decoded credDef id. */
  function PublishedLeaf(h: Hashes, cd: Bytes, credId: string, attrs: Attrs): Option<Felt> {
    LeafOf(h, Raw(cd), credId, attrs)
  }

  predicate HasReserved(domain: Attrs) {
    Has(domain, CRED_ID_NAME) || Has(domain, SIG_NAME) || Has(domain, PROOF_NAME)
  }

  /** The leaf `prepare_mode_b_credential` signs; ValueError on a reserved name. */
  function SignedLeaf(h: Hashes, credDefId: string, credId: string, domain: Attrs): Option<Felt> {
    if HasReserved(domain) then None else LeafOf(h, Hex(credDefId), credId, domain)
  }

  /** The attribute map it returns: the domain map, then the id, then the signature. */
  function Prepared(domain: Attrs, credId: string, sig: string): Attrs {
    Set(Set(domain, CRED_ID_NAME, credId), SIG_NAME, sig)
  }

  /** A text of 64 characters that decodes to 32 bytes names the same felt as those bytes. */
  lemma TextAndBytesAgree(text: string)
    requires IdBytes(Hex(text)).Some? && CredDefBytes(Hex(text)).Some?
    ensures IdToFelt(Hex(text)) == IdToFelt(Raw(CredDefBytes(Hex(text)).value))
  {
  }

  /** The leaf signed at preparation is the leaf published: from any reordering of
      the domain map, or from the full prepared map. */
  lemma SignedIsPublished(h: Hashes, credDefId: string, cd: Bytes, credId: string,
                          domain: Attrs, again: Attrs, sig: string)
    requires NoDup(domain) && NoDup(again) && forall k :: Get(again, k) == Get(domain, k)
    requires SignedLeaf(h, credDefId, credId, domain).Some? && CredDefBytes(Hex(credDefId)) == Some(cd)
    ensures PublishedLeaf(h, cd, credId, again) == SignedLeaf(h, credDefId, credId, domain)
    ensures PublishedLeaf(h, cd, credId, Prepared(domain, credId, sig)) == SignedLeaf(h, credDefId, credId, domain)
  {
    EncodeIndependent(h, again, domain, RESERVED);
    var full := Prepared(domain, credId, sig);
    SetKeys(domain, CRED_ID_NAME, credId);
    SetKeys(Set(domain, CRED_ID_NAME, credId), SIG_NAME, sig);
    forall k | k !in RESERVED ensures Get(full, k) == Get(domain, k) {
      assert RESERVED[0] == CRED_ID_NAME && RESERVED[1] == SIG_NAME;
      GetSet(domain, CRED_ID_NAME, credId, k);
      GetSet(Set(domain, CRED_ID_NAME, credId), SIG_NAME, sig, k);
    }
    EncodeIndependent(h, full, domain, RESERVED);
    TextAndBytesAgree(credDefId);
  }

  /** Hex text decodes to half its length exactly when it holds no whitespace. */
  lemma {:induction false} WhitespaceShortens(s: string)
    requires FromHex(s).Some?
    ensures 2 * |FromHex(s).value| == |s| <==> forall i :: 0 <= i < |s| ==> !IsSpace(s[i])
    ensures 2 * |FromHex(s).value| <= |s|
  {
    if s != [] {
      if IsSpace(s[0]) {
        FromHexLength(s[1..]);
      } else {
        WhitespaceShortens(s[2..]);
        assert !IsSpace(s[1]) by { DigitIsNoSpace(s[1]); }
        assert s == [s[0], s[1]] + s[2..];
        forall i | 2 <= i < |s| ensures s[i] == s[2..][i - 2] {
        }
      }
    }
  }

  lemma DigitIsNoSpace(c: char)
    requires HexDigit(c).Some?
    ensures !IsSpace(c)
  {
  }

  /** A text accepted for signing is accepted for publishing exactly when it holds
      no whitespace. */
  lemma PublishableText(text: string)
    requires IdBytes(Hex(text)).Some?
    ensures var s := StripPrefix(text);
      CredDefBytes(Hex(text)).Some? <==> forall i :: 0 <= i < |s| ==> !IsSpace(s[i])
  {
    WhitespaceShortens(StripPrefix(text));
  }

  predicate AllDigits(s: string) {
    forall i :: 0 <= i < |s| ==> HexDigit(s[i]).Some?
  }

  lemma {:induction false} DigitsDecode(s: string)
    requires |s| % 2 == 0
    ensures AllDigits(s) <==> FromHex(s).Some? && forall i :: 0 <= i < |s| ==> !IsSpace(s[i])
  {
    if s != [] {
      var rest := s[2..];
      DigitsDecode(rest);
      assert s == [s[0], s[1]] + rest;
      assert forall i :: 0 <= i < |rest| ==> rest[i] == s[i + 2];
      if AllDigits(s) {
        forall i | 0 <= i < |s| ensures !IsSpace(s[i]) {
          DigitIsNoSpace(s[i]);
        }
      }
      if FromHex(s).Some? && forall i :: 0 <= i < |s| ==> !IsSpace(s[i]) {
        forall i | 0 <= i < |s| ensures HexDigit(s[i]).Some? {
          assert i >= 2 ==> s[i] == rest[i - 2];
        }
      }
    }
  }

  lemma {:induction false} InsertLength(n: string, names: seq<string>)
    ensures |InsertName(n, names)| == |names| + 1
  {
    if names != [] && !NameLess(n, names[0]) {
      InsertLength(n, names[1..]);
    }
  }

  lemma {:induction false} SortLength(names: seq<string>)
    ensures |SortNames(names)| == |names|
  {
    if names != [] {
      SortLength(names[1..]);
      InsertLength(names[0], SortNames(names[1..]));
    }
  }

  lemma {:induction false} IncludedAll(names: seq<string>, exclude: seq<string>)
    requires forall n :: n in names ==> n !in exclude
    ensures Included(names, exclude) == names
  {
    if names != [] {
      assert names[0] in names;
      assert forall n :: n in names[1..] ==> n in names;
      IncludedAll(names[1..], exclude);
      assert names == [names[0]] + names[1..];
    }
  }

  /** Without reserved names every entry of the domain map is encoded. */
  lemma EncodesAll(h: Hashes, domain: Attrs)
    requires !HasReserved(domain)
    ensures |Encode(h, domain, RESERVED)| == |domain|
  {
    forall n | n in Keys(domain) ensures n !in RESERVED {
      var i :| 0 <= i < |domain| && Keys(domain)[i] == n;
      HasIndex(domain, n);
      assert Has(domain, n);
    }
    IncludedAll(Keys(domain), RESERVED);
    SortLength(Keys(domain));
  }

  /** A credential is signed, and its credDef text accepted for publishing, exactly
      when the domain map has no reserved name and at most 16 entries, and the text
      is 64 hex digits after any 0x. */
  lemma SigningAndPublishing(h: Hashes, credDefId: string, credId: string, domain: Attrs)
    ensures SignedLeaf(h, credDefId, credId, domain).Some? && CredDefBytes(Hex(credDefId)).Some?
      <==> (!HasReserved(domain) && |domain| <= CIRCUIT_ATTRS
            && |StripPrefix(credDefId)| == 64 && AllDigits(StripPrefix(credDefId)))
  {
    var s := StripPrefix(credDefId);
    assert |h.keccak(h.utf8(credId))| == 32;
    if !HasReserved(domain) {
      EncodesAll(h, domain);
    }
    if |s| == 64 {
      DigitsDecode(s);
      if FromHex(s).Some? {
        WhitespaceShortens(s);
      }
    }
  }
}
