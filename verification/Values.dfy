/**
  The values stored under the keys, and the byte layouts of the meta values.
 */
module Values {
  import opened Bytes
  import opened Codec

  datatype Kind = Hash | List | Set | Zset

  datatype Value =
    | StringVal(ttl: u64, data: bytes)
    | ListMeta(ttl: u64, version: u16, left: u64, right: u64)
    | CollMeta(kind: Kind, ttl: u64, version: u16, slots: u16)
    | Count(n: int)
    | Blob(data: bytes)
    | Code(code: u64)
    | Version(version: u16)
    | TypeTag(kind: Kind)

  function TypeByte(kind: Kind): byte {
    match kind
    case Hash => 1
    case List => 2
    case Set => 3
    case Zset => 4
  }

  predicate IsMeta(v: Value) {
    v.StringVal? || v.ListMeta? || (v.CollMeta? && !v.kind.List?)
  }

  /** The meta value as it is stored: a slot count of 0 stands for the configured one. */
  function Configured(v: Value, slots: u16): Value {
    if v.CollMeta? && v.slots == 0 then v.(slots := slots) else v
  }

  /** The meta value layouts: type, ttl, version, then payload, window or slot count. */
  function EncodeMeta(v: Value, configured: u16): bytes
    requires IsMeta(v)
  {
    match v
    case StringVal(ttl, data) => [0] + Be64(ttl) + Be16(0) + data
    case ListMeta(ttl, version, left, right) =>
      [TypeByte(List)] + Be64(ttl) + Be16(version) + (Be64(left) + Be64(right))
    case CollMeta(kind, ttl, version, slots) =>
      [TypeByte(kind)] + Be64(ttl) + Be16(version) + (if slots == 0 then Be16(configured) else Be16(slots))
  }

  /** The layouts byte for byte. */
  lemma MetaLayout(v: Value, configured: u16)
    requires IsMeta(v)
    ensures var b := EncodeMeta(v, configured);
            && |b| >= 11 && b[1..9] == Be64(v.ttl)
            && (v.StringVal? ==> b[0] == 0 && b[9..] == [0, 0] + v.data)
            && (v.ListMeta? ==> b[0] == 2 && b[9..11] == Be16(v.version) && b[11..] == Be64(v.left) + Be64(v.right))
            && (v.CollMeta? ==>
                  && b[0] == (if v.kind == Hash then 1 else if v.kind == Set then 3 else 4)
                  && b[9..11] == Be16(v.version) && b[11..] == Be16(if v.slots == 0 then configured else v.slots))
  {
    hide Be16, Be64;
    var b := EncodeMeta(v, configured);
    assert b[1..9] == Be64(v.ttl);
    assert v.StringVal? ==> b[9..] == Be16(0) + v.data;
    Be16Zero();
  }

  lemma Be16Zero()
    ensures Be16(0) == [0, 0]
  {
    assert BigEndian(0, 1) == [0];
  }

  /** What the decoders read at their fixed offsets; `None` where they panic. */
  function DecodeMeta(b: bytes): Option<Value> {
    if |b| < 11 then None
    else
      var ttl, version, rest := FromBigEndian(b[1..9]), FromBigEndian(b[9..11]), b[11..];
      if ttl >= 0x1_0000_0000_0000_0000 || version >= 0x1_0000 then None
      else match b[0]
        case 0 => Some(StringVal(ttl, rest))
        case 2 =>
          if |rest| != 16 then None
          else
            var l, r := FromBigEndian(rest[..8]), FromBigEndian(rest[8..]);
            if l >= 0x1_0000_0000_0000_0000 || r >= 0x1_0000_0000_0000_0000 then None
            else Some(ListMeta(ttl, version, l, r))
        case _ =>
          if |rest| != 2 || FromBigEndian(rest) >= 0x1_0000 then None
          else
            var n := FromBigEndian(rest);
            if b[0] == 1 then Some(CollMeta(Hash, ttl, version, n))
            else if b[0] == 3 then Some(CollMeta(Set, ttl, version, n))
            else if b[0] == 4 then Some(CollMeta(Zset, ttl, version, n))
            else None
  }

  /** Meta values survive being written and read back, but for a slot count of 0. */
  lemma MetaRoundTrip(v: Value, configured: u16)
    requires IsMeta(v)
    ensures DecodeMeta(EncodeMeta(v, configured)) == Some(Configured(v, configured))
  {
    hide Be16, Be64, FromBigEndian;
    var b := EncodeMeta(v, configured);
    var version: u16 := if v.StringVal? then 0 else v.version;
    assert b[1..9] == Be64(v.ttl) && b[9..11] == Be16(version);
    Be64Order(v.ttl, v.ttl);
    Be16Order(version, version);
    match v {
      case StringVal(_, data) => assert b[11..] == data;
      case ListMeta(_, _, left, right) =>
        assert b[11..][..8] == Be64(left) && b[11..][8..] == Be64(right);
        Be64Order(left, left);
        Be64Order(right, right);
      case CollMeta(_, _, _, slots) =>
        var n := if slots == 0 then configured else slots;
        assert b[11..] == Be16(n);
        Be16Order(n, n);
    }
  }
}
