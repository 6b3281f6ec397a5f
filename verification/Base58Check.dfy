/** Base58 strings with a checksum, and the secrets and addresses kept in them.
    The double hash is a parameter, and so is the network the program runs on. */
module Base58Check {
  import opened Common
  import opened Mpi
  import opened Chars
  import opened Base58
  import Radix

  type Octet = n: nat | n < 256
  type Hash = Bytes -> nat

  /** The first four bytes of a hash in memory, least significant first. */
  function Checksum(h: Hash, b: Bytes): (c: Bytes)
    ensures |c| == 4
  {
    var n := h(b);
    [n % 0x100, n / 0x100 % 0x100, n / 0x1_0000 % 0x100, n / 0x100_0000 % 0x100]
  }

  /** Four bytes whose value, least significant first, is the hash modulo 2^32. */
  ghost predicate Signs(h: Hash, b: Bytes, c: Bytes) {
    |c| == 4 && Radix.Value(Reverse(c), 256) == h(b) % 0x1_0000_0000
  }

  /** Byte `j` of the checksum is byte `j` of the hash, counted from its lowest. */
  lemma ChecksumBytes(h: Hash, b: Bytes, j: nat)
    requires j < 4
    ensures Checksum(h, b)[j] == h(b) / Radix.Pow(256, j) % 256
  {
    assert Radix.Pow(256, 0) == 1 && Radix.Pow(256, 1) == 0x100;
    assert Radix.Pow(256, 2) == 0x1_0000 && Radix.Pow(256, 3) == 0x100_0000;
  }

  /** The checksum is the one sequence of four bytes that signs the data. */
  lemma ChecksumSigns(h: Hash, b: Bytes, c: Bytes)
    ensures Signs(h, b, c) <==> c == Checksum(h, b)
  {
    var s := Checksum(h, b);
    FourBytes(h(b), Reverse(s));
    ReverseTwice(c);
    ReverseTwice(s);
    hide Checksum;
    if Signs(h, b, c) { Radix.ValueInjective(Reverse(c), Reverse(s), 256); }
  }

  lemma FourBytes(n: nat, ds: seq<nat>)
    requires ds == [n / 0x100_0000 % 0x100, n / 0x1_0000 % 0x100, n / 0x100 % 0x100, n % 0x100]
    ensures Radix.Value(ds, 256) == n % 0x1_0000_0000
  {
    var n1 := n / 0x100;
    var n2 := n1 / 0x100;
    var n3 := n2 / 0x100;
    assert n / 0x1_0000 == n2 && n / 0x100_0000 == n3;
    var d0, d1, d2, d3 := n3 % 0x100, n2 % 0x100, n1 % 0x100, n % 0x100;
    assert ds == (([] + [d0]) + [d1] + [d2]) + [d3];
    Radix.ValueAppend([], d0, 256);
    Radix.ValueAppend([d0], d1, 256);
    Radix.ValueAppend([d0, d1], d2, 256);
    Radix.ValueAppend([d0, d1, d2], d3, 256);
    assert [d0] + [d1] == [d0, d1] && [d0, d1] + [d2] == [d0, d1, d2] && [] + [d0] == [d0];
    Radix.DivModUnique(n3 / 0x100, ((d0 * 0x100 + d1) * 0x100 + d2) * 0x100 + d3, 0x1_0000_0000);
  }

  function EncodeCheck(h: Hash, b: Bytes): string { Encode(b + Checksum(h, b)) }

  function Unchecked(h: Hash, v: Bytes): Option<Bytes> {
    if |v| < 4 then None
    else
      var b: Bytes := v[..|v| - 4];
      if Checksum(h, b) == v[|v| - 4..] then Some(b) else None
  }

  function DecodeCheck(h: Hash, s: string): Option<Bytes> {
    var v := Decode(s);
    if v.None? then None else Unchecked(h, v.value)
  }

  predicate AllZeros(b: Bytes) { Leading(b) == |b| }

  lemma UncheckedIs(h: Hash, v: Bytes, b: Bytes)
    ensures Unchecked(h, v) == Some(b) <==> v == b + Checksum(h, b)
  {
    hide Checksum;
    if |v| >= 4 {
      assert v == v[..|v| - 4] + v[|v| - 4..];
      assert (b + Checksum(h, b))[..|b|] == b;
    }
  }

  /** A string is accepted, and decodes to `b`, exactly when it is the form of
      `b` but for surrounding white space. */
  lemma CheckExact(h: Hash, s: string, b: Bytes)
    ensures DecodeCheck(h, s) == Some(b) <==> Content(s) == EncodeCheck(h, b)
  {
    hide Unchecked, Checksum, Content, Encode;
    var v := b + Checksum(h, b);
    EncodeDecode(s, v);
    UncheckedIs(h, v, b);
    if Decode(s).Some? {
      UncheckedIs(h, Decode(s).value, b);
      EncodeDecode(s, Decode(s).value);
    }
  }

  /** A string is accepted as `b` exactly when it decodes to `b` and four bytes of
      the hash after it, least significant first. */
  lemma CheckSigned(h: Hash, s: string, b: Bytes)
    ensures DecodeCheck(h, s) == Some(b) <==>
      Decode(s).Some? && |Decode(s).value| == |b| + 4 && Decode(s).value[..|b|] == b
      && Signs(h, b, Decode(s).value[|b|..])
  {
    hide Decode, Checksum, Unchecked;
    if Decode(s).Some? {
      var v := Decode(s).value;
      UncheckedIs(h, v, b);
      if |v| == |b| + 4 {
        var c: Bytes := v[|b|..];
        ChecksumSigns(h, b, c);
        assert v == v[..|b|] + c;
      }
      assert (b + Checksum(h, b))[..|b|] == b && (b + Checksum(h, b))[|b|..] == Checksum(h, b);
    }
  }

  method EncodeBase58Check(h: Hash, vchIn: Bytes) returns (str: string)
    ensures exists c: Bytes :: Signs(h, vchIn, c) && str == Written(vchIn + c)
    ensures str == Written(vchIn + Checksum(h, vchIn))
    ensures str == EncodeCheck(h, vchIn) <==> |vchIn| + 4 < LENGTH_LIMIT || AllZeros(vchIn + Checksum(h, vchIn))
  {
    ChecksumSigns(h, vchIn, Checksum(h, vchIn));
    hide Encode, Written, Checksum, Leading;
    var vch: Bytes := vchIn;
    vch := vch + Checksum(h, vchIn);
    str := EncodeBase58(vch);
  }

  lemma AcceptedSigned(h: Hash, s: string)
    ensures DecodeCheck(h, s).Some? <==> exists b: Bytes, c: Bytes :: Decode(s) == Some(b + c) && Signs(h, b, c)
    ensures DecodeCheck(h, s).Some? ==>
      exists c: Bytes :: Decode(s) == Some(DecodeCheck(h, s).value + c) && Signs(h, DecodeCheck(h, s).value, c)
  {
    hide Decode, DecodeCheck, Signs;
    if DecodeCheck(h, s).Some? {
      var b := DecodeCheck(h, s).value;
      CheckSigned(h, s, b);
      var c: Bytes := Decode(s).value[|b|..];
      assert Decode(s).value == b + c;
    }
    forall b: Bytes, c: Bytes | Decode(s) == Some(b + c) && Signs(h, b, c) ensures DecodeCheck(h, s) == Some(b) {
      SignsFour(h, b, c);
      assert (b + c)[..|b|] == b && (b + c)[|b|..] == c;
      CheckSigned(h, s, b);
    }
  }

  lemma SignsFour(h: Hash, b: Bytes, c: Bytes)
    requires Signs(h, b, c)
    ensures |c| == 4
  {
  }

  method DecodeBase58Check(h: Hash, s: string) returns (ok: bool, vchRet: Bytes)
    ensures ok <==> DecodeCheck(h, s).Some?
    ensures vchRet == if ok then DecodeCheck(h, s).value else []
    ensures ok <==> exists b: Bytes, c: Bytes :: Decode(s) == Some(b + c) && Signs(h, b, c)
    ensures ok ==> exists c: Bytes :: Decode(s) == Some(vchRet + c) && Signs(h, vchRet, c)
  {
    AcceptedSigned(h, s);
    hide Decode, Checksum, Signs;
    ok, vchRet := DecodeBase58(s);
    if !ok { return false, []; }
    if |vchRet| < 4 { return false, []; }
    if Checksum(h, vchRet[..|vchRet| - 4]) != vchRet[|vchRet| - 4..] { return false, []; }
    vchRet := vchRet[..|vchRet| - 4];
  }

  // ----- versioned data -------------------------------------------------------------

  datatype Data = Data(version: Octet, bytes: Bytes)

  function Text(h: Hash, d: Data): string { EncodeCheck(h, [d.version] + d.bytes) }

  function Parse(h: Hash, s: string): Option<Data> {
    var v := DecodeCheck(h, s);
    if v.None? || v.value == [] then None else Some(Data(v.value[0], v.value[1..]))
  }

  lemma ParseExact(h: Hash, s: string, d: Data)
    ensures Parse(h, s) == Some(d) <==> Content(s) == Text(h, d)
  {
    hide EncodeCheck, DecodeCheck, Content;
    var b: Bytes := [d.version] + d.bytes;
    CheckExact(h, s, b);
    assert b[1..] == d.bytes;
    var v := DecodeCheck(h, s);
    if v.Some? && v.value != [] { assert v.value == [v.value[0]] + v.value[1..]; }
  }

  lemma ParseText(h: Hash, w: string, d: Data, w': string)
    requires Blank(w) && Blank(w')
    ensures Parse(h, w + Text(h, d) + w') == Some(d)
  {
    var b: Bytes := [d.version] + d.bytes;
    hide Encode, Content, Parse, Checksum;
    ContentBlank(w, Text(h, d), w');
    EncodeContent(b + Checksum(h, b));
    ParseExact(h, w + Text(h, d) + w', d);
  }

  class CBase58Data {
    var nVersion: Octet
    var vchData: Bytes

    constructor ()
      ensures View() == Data(0, [])
    {
      nVersion, vchData := 0, [];
    }

    function View(): Data
      reads this
    {
      Data(nVersion, vchData)
    }

    method SetData(nVersionIn: Octet, data: Bytes)
      modifies this
      ensures View() == Data(nVersionIn, data)
    {
      nVersion := nVersionIn;
      vchData := data;
    }

    method SetString(h: Hash, psz: string) returns (ok: bool)
      modifies this
      ensures ok <==> Parse(h, psz).Some?
      ensures View() == if ok then Parse(h, psz).value else Data(0, [])
    {
      hide DecodeCheck;
      var decoded, vchTemp := DecodeBase58Check(h, psz);
      if vchTemp == [] {
        vchData := [];
        nVersion := 0;
        return false;
      }
      nVersion := vchTemp[0];
      vchData := vchTemp[1..];
      return true;
    }

    method ToString(h: Hash) returns (str: string)
      ensures var b := [nVersion] + vchData; str == Written(b + Checksum(h, b))
      ensures var b := [nVersion] + vchData;
        str == Text(h, View()) <==> |b| + 4 < LENGTH_LIMIT || AllZeros(b + Checksum(h, b))
    {
      hide EncodeCheck, Written, Checksum, AllZeros;
      var version := nVersion;
      var vch: Bytes := [version];
      vch := vch + vchData;
      str := EncodeBase58Check(h, vch);
    }
  }

  // ----- secrets ----------------------------------------------------------------------

  type Secret = b: Bytes | |b| == 32 witness Radix.Zeros(32)

  function SecretData(testNet: bool, secret: Secret, compressed: bool): Data {
    Data(if testNet then 239 else 128, secret + if compressed then [1] else [])
  }

  predicate ValidSecret(testNet: bool, d: Data) {
    && d.version == (if testNet then 239 else 128)
    && (|d.bytes| == 32 || (|d.bytes| == 33 && d.bytes[32] == 1))
  }

  /** Just the data made from a secret on this network is valid. */
  lemma SecretExact(testNet: bool, d: Data)
    ensures ValidSecret(testNet, d) <==>
      |d.bytes| >= 32 && d == SecretData(testNet, d.bytes[..32], |d.bytes| == 33)
  {
    if |d.bytes| == 33 { assert d.bytes == d.bytes[..32] + [d.bytes[32]]; }
    if |d.bytes| == 32 { assert d.bytes == d.bytes[..32] + []; }
  }

  /** A secret keeps its bytes and its flag through a string, and the other
      network refuses it. */
  lemma SecretKept(h: Hash, w: string, testNet: bool, secret: Secret, compressed: bool, w': string)
    requires Blank(w) && Blank(w')
    ensures var d := Parse(h, w + Text(h, SecretData(testNet, secret, compressed)) + w');
      && d.Some? && ValidSecret(testNet, d.value) && !ValidSecret(!testNet, d.value)
      && d.value == Data(if testNet then 239 else 128, secret + (if compressed then [1] else []))
  {
    hide Parse, Text;
    ParseText(h, w, SecretData(testNet, secret, compressed), w');
  }

  class CBitcoinSecret {
    const base: CBase58Data

    constructor ()
      ensures fresh(base) && base.View() == Data(0, [])
    {
      base := new CBase58Data();
    }

    method SetSecret(testNet: bool, vchSecret: Secret, fCompressed: bool)
      modifies base
      ensures base.View() == SecretData(testNet, vchSecret, fCompressed)
    {
      base.SetData(if testNet then 239 else 128, vchSecret);
      if fCompressed { base.vchData := base.vchData + [1]; }
      assert base.vchData == vchSecret + if fCompressed then [1] else [];
    }

    method GetSecret() returns (vchSecret: Secret, fCompressed: bool)
      requires |base.vchData| >= 32
      ensures forall testNet :: ValidSecret(testNet, base.View()) ==>
        base.View() == SecretData(testNet, vchSecret, fCompressed)
    {
      vchSecret := base.vchData[..32];
      fCompressed := |base.vchData| == 33;
      forall testNet | ValidSecret(testNet, base.View())
        ensures base.View() == SecretData(testNet, vchSecret, fCompressed)
      {
        SecretExact(testNet, base.View());
      }
    }

    method IsValid(testNet: bool) returns (ok: bool)
      ensures ok <==> ValidSecret(testNet, base.View())
    {
      var fExpectTestNet := false;
      if base.nVersion == 128 {
      } else if base.nVersion == 239 {
        fExpectTestNet := true;
      } else {
        return false;
      }
      ok := fExpectTestNet == testNet
        && (|base.vchData| == 32 || (|base.vchData| == 33 && base.vchData[32] == 1));
    }

    method SetString(h: Hash, testNet: bool, pszSecret: string) returns (ok: bool)
      modifies base
      ensures ok <==> Parse(h, pszSecret).Some? && ValidSecret(testNet, Parse(h, pszSecret).value)
      ensures Parse(h, pszSecret).Some? ==> base.View() == Parse(h, pszSecret).value
      ensures Parse(h, pszSecret).None? ==> base.View() == Data(0, [])
    {
      hide Parse;
      ok := base.SetString(h, pszSecret);
      if ok { ok := IsValid(testNet); }
    }
  }

  // ----- addresses ----------------------------------------------------------------------

  type Hash160 = b: Bytes | |b| == 20 witness Radix.Zeros(20)

  datatype Destination = NoDestination | KeyId(id: Hash160) | ScriptId(id: Hash160)

  const PUBKEY_ADDRESS: Octet := 0
  const SCRIPT_ADDRESS: Octet := 9
  const PUBKEY_ADDRESS_TEST: Octet := 111
  const SCRIPT_ADDRESS_TEST: Octet := 199

  function KeyVersion(testNet: bool): Octet { if testNet then PUBKEY_ADDRESS_TEST else PUBKEY_ADDRESS }

  function ScriptVersion(testNet: bool): Octet { if testNet then SCRIPT_ADDRESS_TEST else SCRIPT_ADDRESS }

  function AddressData(testNet: bool, dest: Destination): Data
    requires !dest.NoDestination?
  {
    Data(if dest.KeyId? then KeyVersion(testNet) else ScriptVersion(testNet), dest.id)
  }

  function DestinationOf(testNet: bool, d: Data): Destination {
    if |d.bytes| != 20 then NoDestination
    else if d.version == KeyVersion(testNet) then KeyId(d.bytes)
    else if d.version == ScriptVersion(testNet) then ScriptId(d.bytes)
    else NoDestination
  }

  /** Just the data made from a destination on this network yields one. */
  lemma AddressExact(testNet: bool, d: Data, dest: Destination)
    requires !dest.NoDestination?
    ensures DestinationOf(testNet, d) == dest <==> d == AddressData(testNet, dest)
    ensures d == AddressData(testNet, dest) <==>
      && d.bytes == dest.id
      && d.version == if dest.KeyId? then (if testNet then 111 else 0) else (if testNet then 199 else 9)
  {
  }

  /** A destination comes back through a string, and only on its own network. */
  lemma AddressKept(h: Hash, w: string, testNet: bool, dest: Destination, w': string)
    requires Blank(w) && Blank(w') && !dest.NoDestination?
    ensures var d := Parse(h, w + Text(h, AddressData(testNet, dest)) + w');
      d.Some? && DestinationOf(testNet, d.value) == dest && DestinationOf(!testNet, d.value) == NoDestination
  {
    hide Parse, Text;
    ParseText(h, w, AddressData(testNet, dest), w');
  }

  /** The text of an address of a key on the main network starts with a 1. */
  lemma MainKeyText(h: Hash, id: Hash160)
    ensures var s := Text(h, AddressData(false, KeyId(id))); s != "" && s[0] == '1'
  {
    hide Radix.Digits, Checksum;
    var v: Bytes := [0] + id + Checksum(h, [0] + id);
    assert v[0] == 0;
  }

  class CBitcoinAddress {
    const base: CBase58Data

    constructor ()
      ensures fresh(base) && base.View() == Data(0, [])
    {
      base := new CBase58Data();
    }

    method Set(testNet: bool, dest: Destination) returns (ok: bool)
      modifies base
      ensures ok <==> !dest.NoDestination?
      ensures base.View() == if ok then AddressData(testNet, dest) else old(base.View())
    {
      match dest
      case KeyId(id) =>
        base.SetData(if testNet then PUBKEY_ADDRESS_TEST else PUBKEY_ADDRESS, id);
        ok := true;
      case ScriptId(id) =>
        base.SetData(if testNet then SCRIPT_ADDRESS_TEST else SCRIPT_ADDRESS, id);
        ok := true;
      case NoDestination =>
        ok := false;
    }

    method IsValid(testNet: bool) returns (ok: bool)
      ensures ok <==> !DestinationOf(testNet, base.View()).NoDestination?
    {
      var nExpectedSize := 20;
      var fExpectTestNet := false;
      if base.nVersion == PUBKEY_ADDRESS || base.nVersion == SCRIPT_ADDRESS {
        fExpectTestNet := false;
      } else if base.nVersion == PUBKEY_ADDRESS_TEST || base.nVersion == SCRIPT_ADDRESS_TEST {
        fExpectTestNet := true;
      } else {
        return false;
      }
      ok := fExpectTestNet == testNet && |base.vchData| == nExpectedSize;
    }

    method Get(testNet: bool) returns (dest: Destination)
      ensures dest == DestinationOf(testNet, base.View())
    {
      var valid := IsValid(testNet);
      if !valid { return NoDestination; }
      if base.nVersion == PUBKEY_ADDRESS || base.nVersion == PUBKEY_ADDRESS_TEST {
        dest := KeyId(base.vchData[..20]);
      } else if base.nVersion == SCRIPT_ADDRESS || base.nVersion == SCRIPT_ADDRESS_TEST {
        dest := ScriptId(base.vchData[..20]);
      } else {
        dest := NoDestination;
      }
    }

    method GetKeyID(testNet: bool) returns (id: Option<Hash160>)
      ensures id.Some? ==> DestinationOf(testNet, base.View()) == KeyId(id.value)
      ensures id.None? <==> !DestinationOf(testNet, base.View()).KeyId?
    {
      var valid := IsValid(testNet);
      if valid && (base.nVersion == PUBKEY_ADDRESS || base.nVersion == PUBKEY_ADDRESS_TEST) {
        id := Some(base.vchData[..20]);
      } else {
        id := None;
      }
    }

    method IsScript(testNet: bool) returns (ok: bool)
      ensures ok <==> DestinationOf(testNet, base.View()).ScriptId?
    {
      ok := IsValid(testNet);
      if ok { ok := base.nVersion == SCRIPT_ADDRESS || base.nVersion == SCRIPT_ADDRESS_TEST; }
    }
  }
}
