/**
  JWKS entries and the two loaders built on one entry check (section 4 of RFC 7517).

  The strict loader reads a set pinned in configuration and refuses it for any bad entry; the
  tolerant loader reads a fetched set and skips what it cannot use. Base64url decoding is a
  parameter: a decoder gives the decoded length of a text, or nothing.
 */
module JwksKeys {
  import opened Wrappers

  type Decoder = string -> Option<nat>

  /** Every member of an entry that the loaders look at. */
  datatype Jwk = Jwk(
    kid: Option<string>, kty: string, n: Option<string>, e: Option<string>, crv: Option<string>,
    x: Option<string>, y: Option<string>, alg: Option<string>, keyUse: Option<string>, hasPrivatePart: bool)

  /** One raw element of `keys`: a JWK, or JSON that is none. */
  datatype Entry = NotJwk | Entry(jwk: Jwk)

  datatype Key = RsaKey(n: string, e: string) | EcKey(x: string, y: string) | EdKey(x: string)

  datatype Family = Rsa | Ec | Ed

  datatype Fault =
    | WrongAlgorithm | WrongUse | PrivatePart | LacksModulus | LacksCurve | WrongCurve
    | LacksCoordinate | NotBase64 | WrongLength(bytes: nat) | Unusable | WrongType

  const COORDINATE_LEN: nat := 32

  function VerifiedAlgorithms(family: Family): set<string> {
    match family
    case Rsa => {"RS256", "RS384", "RS512"}
    case Ec => {"ES256"}
    case Ed => {"EdDSA"}
  }

  // ---- the shared entry check ---------------------------------------------------------

  function CheckPublicSigningKey(jwk: Jwk, family: Family): Option<Fault> {
    if jwk.alg.Some? && jwk.alg.value !in VerifiedAlgorithms(family) then Some(WrongAlgorithm)
    else if jwk.keyUse.Some? && jwk.keyUse.value != "sig" then Some(WrongUse)
    else if jwk.hasPrivatePart then Some(PrivatePart)
    else None
  }

  function CheckCurve(jwk: Jwk, supported: string): Option<Fault> {
    if jwk.crv.None? then Some(LacksCurve)
    else if jwk.crv.value != supported then Some(WrongCurve)
    else None
  }

  /** Present, base64url and 32 bytes decoded, leading zeros kept (section 6.2.1.2 of RFC 7518). */
  function Coordinate(decode: Decoder, value: Option<string>): Result<string, Fault> {
    if value.None? then Err(LacksCoordinate)
    else if decode(value.value).None? then Err(NotBase64)
    else if decode(value.value).value != COORDINATE_LEN then Err(WrongLength(decode(value.value).value))
    else Ok(value.value)
  }

  /** The verification key an entry is, or why it is none. Its family comes from `kty` alone. */
  function VerificationKey(decode: Decoder, jwk: Jwk): Result<Key, Fault> {
    if jwk.kty == "RSA" then
      var fault := CheckPublicSigningKey(jwk, Rsa);
      if fault.Some? then Err(fault.value)
      else if jwk.n.None? || jwk.e.None? then Err(LacksModulus)
      else if decode(jwk.n.value).None? || decode(jwk.e.value).None? then Err(Unusable)
      else Ok(RsaKey(jwk.n.value, jwk.e.value))
    else if jwk.kty == "EC" then
      var fault := CheckPublicSigningKey(jwk, Ec);
      if fault.Some? then Err(fault.value)
      else if CheckCurve(jwk, "P-256").Some? then Err(CheckCurve(jwk, "P-256").value)
      else
        var x, y := Coordinate(decode, jwk.x), Coordinate(decode, jwk.y);
        if x.Err? then Err(x.error) else if y.Err? then Err(y.error) else Ok(EcKey(x.value, y.value))
    else if jwk.kty == "OKP" then
      var fault := CheckPublicSigningKey(jwk, Ed);
      if fault.Some? then Err(fault.value)
      else if CheckCurve(jwk, "Ed25519").Some? then Err(CheckCurve(jwk, "Ed25519").value)
      else
        var x := Coordinate(decode, jwk.x);
        if x.Err? then Err(x.error) else Ok(EdKey(x.value))
    else Err(WrongType)
  }

  /** An entry is this key exactly when it is public, signing, of the key's type and a verified algorithm if it names one. */
  lemma UsableExactly(decode: Decoder, jwk: Jwk, key: Key)
    ensures VerificationKey(decode, jwk) == Ok(key) <==>
            && !jwk.hasPrivatePart && (jwk.keyUse == None || jwk.keyUse == Some("sig"))
            && match key
               case RsaKey(n, e) =>
                 && jwk.kty == "RSA" && jwk.n == Some(n) && jwk.e == Some(e) && decode(n).Some? && decode(e).Some?
                 && (jwk.alg.Some? ==> jwk.alg.value in {"RS256", "RS384", "RS512"})
               case EcKey(x, y) =>
                 && jwk.kty == "EC" && jwk.crv == Some("P-256") && jwk.x == Some(x) && jwk.y == Some(y)
                 && decode(x) == Some(32) && decode(y) == Some(32) && (jwk.alg.Some? ==> jwk.alg.value == "ES256")
               case EdKey(x) =>
                 && jwk.kty == "OKP" && jwk.crv == Some("Ed25519") && jwk.x == Some(x)
                 && decode(x) == Some(32) && (jwk.alg.Some? ==> jwk.alg.value == "EdDSA")
  {
  }

  /** Of several faults the first is named: the algorithm, then the use, then a private part; another type has only that one. */
  lemma FirstFaultIsNamed(decode: Decoder, jwk: Jwk, family: Family)
    ensures VerificationKey(decode, jwk) == Err(WrongType) <==> jwk.kty !in {"RSA", "EC", "OKP"}
    ensures jwk.kty == (match family case Rsa => "RSA" case Ec => "EC" case Ed => "OKP") ==>
              var named := jwk.alg.Some? && jwk.alg.value !in VerifiedAlgorithms(family);
              var encrypts := jwk.keyUse.Some? && jwk.keyUse.value != "sig";
              && (VerificationKey(decode, jwk) == Err(WrongAlgorithm) <==> named)
              && (VerificationKey(decode, jwk) == Err(WrongUse) <==> !named && encrypts)
              && (VerificationKey(decode, jwk) == Err(PrivatePart) <==> !named && !encrypts && jwk.hasPrivatePart)
  {
  }

  function LowerAscii(c: char): char {
    if 'A' <= c <= 'Z' then (c as int + 32) as char else c
  }

  predicate EqualIgnoringCase(a: string, b: string) {
    |a| == |b| && forall i :: 0 <= i < |a| ==> LowerAscii(a[i]) == LowerAscii(b[i])
  }

  /** An entry of a fetched set: `RSA` in any case, or unnamed when a modulus and exponent are there. */
  function Tolerant(jwk: Jwk): Jwk {
    if EqualIgnoringCase(jwk.kty, "RSA") || (jwk.kty == "" && jwk.n.Some? && jwk.e.Some?)
    then jwk.(kty := "RSA") else jwk
  }

  /** Only the type is read tolerantly: as RSA in its eight spellings, or unnamed with a modulus and exponent. */
  lemma ReadAsRsaExactly(jwk: Jwk)
    ensures Tolerant(jwk).(kty := jwk.kty) == jwk
    ensures Tolerant(jwk).kty ==
            if jwk.kty in {"RSA", "RSa", "RsA", "Rsa", "rSA", "rSa", "rsA", "rsa"} || (jwk.kty == "" && jwk.n.Some? && jwk.e.Some?)
            then "RSA" else jwk.kty
  {
    var kty := jwk.kty;
    if EqualIgnoringCase(kty, "RSA") {
      SameLetter(kty[0], 'R');
      SameLetter(kty[1], 'S');
      SameLetter(kty[2], 'A');
      assert kty == [kty[0], kty[1], kty[2]];
    }
  }

  lemma SameLetter(c: char, capital: char)
    requires 'A' <= capital <= 'Z' && LowerAscii(c) == LowerAscii(capital)
    ensures c == capital || c == (capital as int + 32) as char
  {
  }

  // ---- the tolerant loader ------------------------------------------------------------

  /** What an entry adds to a fetched set: its name and key, or nothing. */
  function Usable(decode: Decoder, entry: Entry): Option<(string, Key)> {
    if entry.NotJwk? || entry.jwk.kid.None? then None
    else
      var key := VerificationKey(decode, Tolerant(entry.jwk));
      if key.Err? then None else Some((entry.jwk.kid.value, key.value))
  }

  /** The usable set of a document: a later entry replaces an earlier one of the same name. */
  function TolerantKeys(decode: Decoder, doc: seq<Entry>): map<string, Key> {
    if doc == [] then map[]
    else
      var before := TolerantKeys(decode, doc[..|doc| - 1]);
      var last := Usable(decode, doc[|doc| - 1]);
      if last.None? then before else before[last.value.0 := last.value.1]
  }

  method LoadTolerant(decode: Decoder, doc: seq<Entry>) returns (keys: Result<map<string, Key>, string>)
    ensures keys.Ok? <==> TolerantKeys(decode, doc) != map[]
    ensures keys.Ok? ==> keys.value == TolerantKeys(decode, doc)
  {
    var next := map[];
    for index := 0 to |doc|
      invariant next == TolerantKeys(decode, doc[..index])
    {
      assert doc[..index + 1][..index] == doc[..index];
      if doc[index].Entry? {
        var jwk := Tolerant(doc[index].jwk);
        if jwk.kid.Some? {
          var key := VerificationKey(decode, jwk);
          if key.Ok? {
            next := next[jwk.kid.value := key.value];
          }
        }
      }
    }
    assert doc[..|doc|] == doc;
    if next == map[] {
      return Err("jwks contained no named RSA, P-256 or Ed25519 keys");
    }
    return Ok(next);
  }

  /** The last usable entry with a name, or -1. */
  function LastNamed(decode: Decoder, doc: seq<Entry>, kid: string): (i: int)
    ensures -1 <= i < |doc|
    ensures i >= 0 ==> Usable(decode, doc[i]).Some? && Usable(decode, doc[i]).value.0 == kid
    ensures forall j :: i < j < |doc| && Usable(decode, doc[j]).Some? ==> Usable(decode, doc[j]).value.0 != kid
  {
    if doc == [] then -1
    else
      var n := |doc| - 1;
      if Usable(decode, doc[n]).Some? && Usable(decode, doc[n]).value.0 == kid then n
      else LastNamed(decode, doc[..n], kid)
  }

  /** A name holds the key of its last usable entry, and only names of usable entries are there. */
  lemma {:induction false} LastUsableEntryWins(decode: Decoder, doc: seq<Entry>, kid: string)
    ensures kid in TolerantKeys(decode, doc) <==> LastNamed(decode, doc, kid) >= 0
    ensures kid in TolerantKeys(decode, doc) ==>
              TolerantKeys(decode, doc)[kid] == Usable(decode, doc[LastNamed(decode, doc, kid)]).value.1
  {
    if doc != [] {
      LastUsableEntryWins(decode, doc[..|doc| - 1], kid);
    }
  }

  lemma TolerantOneMore(decode: Decoder, doc: seq<Entry>, entry: Entry)
    ensures var before, last := TolerantKeys(decode, doc), Usable(decode, entry);
            TolerantKeys(decode, doc + [entry]) == if last.None? then before else before[last.value.0 := last.value.1]
  {
    assert (doc + [entry])[..|doc|] == doc;
  }

  /** Unusable or unnamed entries, put anywhere, change nothing. */
  lemma {:induction false} UnusableEntriesChangeNothing(decode: Decoder, before: seq<Entry>, entry: Entry, after: seq<Entry>)
    requires Usable(decode, entry).None?
    ensures TolerantKeys(decode, before + [entry] + after) == TolerantKeys(decode, before + after)
  {
    if after == [] {
      assert before + [entry] + after == before + [entry] && before + after == before;
      TolerantOneMore(decode, before, entry);
    } else {
      var n := |after| - 1;
      var with, without := before + [entry] + after[..n], before + after[..n];
      UnusableEntriesChangeNothing(decode, before, entry, after[..n]);
      assert before + [entry] + after == with + [after[n]] && before + after == without + [after[n]];
      TolerantOneMore(decode, with, after[n]);
      TolerantOneMore(decode, without, after[n]);
    }
  }

  // ---- the strict loader --------------------------------------------------------------

  datatype EntryFault = MalformedEntry | NoKid | BadKey(fault: Fault) | Repeated
  datatype LoadError = NoKeys | BadEntry(index: nat, why: EntryFault)

  predicate WhiteSpace(c: char) {
    var u := c as int;
    || 0x09 <= u <= 0x0D || u == 0x20 || u == 0x85 || u == 0xA0 || u == 0x1680 || 0x2000 <= u <= 0x200A
    || u == 0x2028 || u == 0x2029 || u == 0x202F || u == 0x205F || u == 0x3000
  }

  predicate Blank(s: string) {
    forall i :: 0 <= i < |s| ==> WhiteSpace(s[i])
  }

  /** What a pinned entry is on its own. */
  function Strict(decode: Decoder, entry: Entry): Result<(string, Key), EntryFault> {
    if entry.NotJwk? then Err(MalformedEntry)
    else if entry.jwk.kid.None? || Blank(entry.jwk.kid.value) then Err(NoKid)
    else
      var key := VerificationKey(decode, entry.jwk);
      if key.Err? then Err(BadKey(key.error)) else Ok((entry.jwk.kid.value, key.value))
  }

  /** A pinned entry stands exactly when it is a JWK with a name that is not blank and its own reading is a key. */
  lemma StrictExactly(decode: Decoder, entry: Entry, kid: string, key: Key)
    ensures Strict(decode, entry) == Ok((kid, key)) <==>
            && entry.Entry? && entry.jwk.kid == Some(kid) && (exists i :: 0 <= i < |kid| && !WhiteSpace(kid[i]))
            && VerificationKey(decode, entry.jwk) == Ok(key)
    ensures Strict(decode, entry) == Err(MalformedEntry) <==> entry.NotJwk?
    ensures Strict(decode, entry) == Err(NoKid) <==> entry.Entry? && (entry.jwk.kid.None? || Blank(entry.jwk.kid.value))
  {
  }

  /** The names and keys of a pinned set. */
  function StrictKeys(decode: Decoder, doc: seq<Entry>): map<string, Key> {
    if doc == [] then map[]
    else
      var before := StrictKeys(decode, doc[..|doc| - 1]);
      var last := Strict(decode, doc[|doc| - 1]);
      if last.Err? then before else before[last.value.0 := last.value.1]
  }

  /** The fault a pinned set is refused for at index `i`, its own or a repeat of an earlier name. */
  function FaultAt(decode: Decoder, doc: seq<Entry>, i: nat): Option<EntryFault>
    requires i < |doc|
  {
    var entry := Strict(decode, doc[i]);
    if entry.Err? then Some(entry.error)
    else if exists j :: 0 <= j < i && Strict(decode, doc[j]).Ok? && Strict(decode, doc[j]).value.0 == entry.value.0
    then Some(Repeated)
    else None
  }

  predicate NoFaults(decode: Decoder, doc: seq<Entry>, n: nat)
    requires n <= |doc|
  {
    forall i :: 0 <= i < n ==> FaultAt(decode, doc, i).None?
  }

  /** A name is taken exactly when an earlier entry has it. */
  lemma {:induction false} StrictNames(decode: Decoder, doc: seq<Entry>, kid: string)
    ensures kid in StrictKeys(decode, doc) <==>
            exists j :: 0 <= j < |doc| && Strict(decode, doc[j]).Ok? && Strict(decode, doc[j]).value.0 == kid
  {
    if doc != [] {
      var n := |doc| - 1;
      StrictNames(decode, doc[..n], kid);
      assert forall j :: 0 <= j < n ==> doc[..n][j] == doc[j];
    }
  }

  /** The pinned set loads exactly when it is not empty and no entry has a fault; else the first fault is named. */
  method LoadStrict(decode: Decoder, doc: seq<Entry>) returns (r: Result<map<string, Key>, LoadError>)
    ensures r.Ok? <==> doc != [] && NoFaults(decode, doc, |doc|)
    ensures r.Ok? ==> r.value == StrictKeys(decode, doc)
    ensures r.Err? && r.error.NoKeys? <==> doc == []
    ensures r.Err? && r.error.BadEntry? ==>
              && r.error.index < |doc| && NoFaults(decode, doc, r.error.index)
              && FaultAt(decode, doc, r.error.index) == Some(r.error.why)
  {
    if doc == [] {
      return Err(NoKeys);
    }
    var keys: map<string, Key> := map[];
    for index := 0 to |doc|
      invariant NoFaults(decode, doc, index)
      invariant keys == StrictKeys(decode, doc[..index])
    {
      var entry := Strict(decode, doc[index]);
      var fault := FaultAt(decode, doc, index);
      assert doc[..index + 1][..index] == doc[..index];
      if entry.Err? {
        assert fault.Some?;
        return Err(BadEntry(index, entry.error));
      }
      var (kid, key) := entry.value;
      StrictNames(decode, doc[..index], kid);
      if kid in keys {
        assert fault == Some(Repeated);
        return Err(BadEntry(index, Repeated));
      }
      assert fault.None?;
      keys := keys[kid := key];
    }
    assert doc[..|doc|] == doc;
    return Ok(keys);
  }

  /** In a faultless set every entry's name holds that entry's own key. */
  lemma {:induction false} FaultlessEntriesAllCount(decode: Decoder, doc: seq<Entry>, i: nat)
    requires NoFaults(decode, doc, |doc|) && i < |doc|
    ensures Strict(decode, doc[i]).Ok?
    ensures Strict(decode, doc[i]).value.0 in StrictKeys(decode, doc)
    ensures StrictKeys(decode, doc)[Strict(decode, doc[i]).value.0] == Strict(decode, doc[i]).value.1
  {
    var n := |doc| - 1;
    assert FaultAt(decode, doc, i).None? && FaultAt(decode, doc, n).None?;
    if i < n {
      FaultsOfPrefix(decode, doc, n);
      FaultlessEntriesAllCount(decode, doc[..n], i);
    }
  }

  lemma FaultsOfPrefix(decode: Decoder, doc: seq<Entry>, n: nat)
    requires n <= |doc|
    ensures NoFaults(decode, doc, n) ==> NoFaults(decode, doc[..n], n)
  {
    if NoFaults(decode, doc, n) {
      forall i | 0 <= i < n
        ensures FaultAt(decode, doc[..n], i).None?
      {
        assert FaultAt(decode, doc, i).None?;
      }
    }
  }

  // ---- strict agrees with tolerant ----------------------------------------------------

  /** A pinned entry that stands is read by the tolerant loader as the same name and key. */
  lemma StrictEntryIsUsable(decode: Decoder, entry: Entry)
    requires Strict(decode, entry).Ok?
    ensures Usable(decode, entry) == Some(Strict(decode, entry).value)
  {
    var jwk := entry.jwk;
    assert Tolerant(jwk) == jwk by {
      if jwk.kty == "OKP" {
        assert LowerAscii("OKP"[0]) != LowerAscii("RSA"[0]);
      }
    }
  }

  /** Any document the strict loader accepts gives the tolerant loader the same map. */
  lemma {:induction false} StrictAgreesWithTolerant(decode: Decoder, doc: seq<Entry>)
    requires NoFaults(decode, doc, |doc|)
    ensures TolerantKeys(decode, doc) == StrictKeys(decode, doc)
    ensures doc != [] ==> TolerantKeys(decode, doc) != map[]
  {
    if doc != [] {
      var n := |doc| - 1;
      FaultsOfPrefix(decode, doc, n);
      StrictAgreesWithTolerant(decode, doc[..n]);
      assert FaultAt(decode, doc, n).None?;
      StrictEntryIsUsable(decode, doc[n]);
      assert Strict(decode, doc[n]).value.0 in TolerantKeys(decode, doc);
    }
  }
}
