/**
 rats/appraise.py: reference documents. JSON names things, CBOR numbers them, and which
 number a name has depends on the key it stands under.
 */
module Corim {
  import opened Bytes
  import Cbor

  // ---- strings --------------------------------------------------------------------------

  /** An ASCII literal as its UTF-8 bytes. */
  function Ascii(s: string): (u: seq<byte>)
    ensures |u| == |s| && forall i :: 0 <= i < |u| ==> u[i] < 0x80
    ensures forall i :: 0 <= i < |s| && s[i] < 128 as char ==> u[i] == s[i] as int
  {
    seq(|s|, i requires 0 <= i < |s| => if s[i] < 128 as char then s[i] as int else 0x3F)
  }

  // ---- the tables -----------------------------------------------------------------------

  datatype Table = UnsignedCorim | ConciseMid | TagIdentity | Entity | Triples | Environment | Class
                 | Measurement | MeasurementValue | Role | Hash

  /** A string as the program's tables see it: an entry of the one table it is in, given by its
      label there; the name of a container's tag; or any other string. */
  datatype Name = Entry(table: Table, number: int) | Container(tag: int) | Other(text: seq<byte>)

  /** The table has an entry with this label. Labels count from 0, except those of the hashes. */
  predicate Has(t: Table, number: int) {
    if t == Hash then number == 1 || number == 7 || number == 8 else 0 <= number < Size(t)
  }

  function Size(t: Table): nat {
    match t
    case UnsignedCorim => 4
    case ConciseMid => 5
    case TagIdentity => 2
    case Entity => 3
    case Triples => 4
    case Environment => 3
    case Class => 5
    case Measurement => 2
    case MeasurementValue => 12
    case Role => 3
    case Hash => 3
  }

  const CORIM := Container(500)
  const UNSIGNED_CORIM_MAP := Container(501)
  const CORIM_ID := Entry(UnsignedCorim, 0)
  const CORIM_TAGS := Entry(UnsignedCorim, 1)
  const COMID_TAG_IDENTITY := Entry(ConciseMid, 1)
  const COMID_ENTITY := Entry(ConciseMid, 2)
  const COMID_TRIPLES := Entry(ConciseMid, 4)
  const COMID_TAG_ID := Entry(TagIdentity, 0)
  const COMID_ENTITY_NAME := Entry(Entity, 0)
  const COMID_REG_ID := Entry(Entity, 1)
  const COMID_ROLE := Entry(Entity, 2)
  const COMID_REFERENCE_TRIPLES := Entry(Triples, 0)
  const COMID_CLASS := Entry(Environment, 0)
  const COMID_INSTANCE := Entry(Environment, 1)
  const COMID_CLASS_ID := Entry(Class, 0)
  const COMID_VENDOR := Entry(Class, 1)
  const COMID_MODEL := Entry(Class, 2)
  const COMID_LAYER := Entry(Class, 3)
  const COMID_INDEX := Entry(Class, 4)
  const COMID_MKEY := Entry(Measurement, 0)
  const COMID_MVAL := Entry(Measurement, 1)
  const COMID_SVN := Entry(MeasurementValue, 1)
  const COMID_DIGESTS := Entry(MeasurementValue, 2)

  /** `table.get(name)` */
  function Label(t: Table, n: Name): Option<int> {
    if n.Entry? && n.table == t && Has(t, n.number) then Some(n.number) else None
  }

  /** `_name_for(table, label)` */
  function NameFor(t: Table, number: int): Option<Name> {
    if Has(t, number) then Some(Entry(t, number)) else None
  }

  /** `ALL_NAMES.get(name)`: the tables of roles and hashes are not part of it. */
  function AnyLabel(n: Name): Option<int> {
    if n.Entry? && n.table != Role && n.table != Hash && Has(n.table, n.number) then Some(n.number) else None
  }

  /** `_name_for(ALL_NAMES, label)`: the first name with the label. The names were collected
      table by table; past the first table only the second and the last have labels that no
      table before them has. */
  function AnyName(number: int): Option<Name> {
    if Has(UnsignedCorim, number) then Some(Entry(UnsignedCorim, number))
    else if Has(ConciseMid, number) then Some(Entry(ConciseMid, number))
    else if Has(MeasurementValue, number) then Some(Entry(MeasurementValue, number))
    else None
  }

  /** `LOGIC_MAP.get(key)` */
  function LogicMap(key: Name): Option<Table> {
    if key == UNSIGNED_CORIM_MAP then Some(UnsignedCorim)
    else if key == CORIM_TAGS then Some(ConciseMid)
    else if key == COMID_TAG_IDENTITY then Some(TagIdentity)
    else if key == COMID_ENTITY then Some(Entity)
    else if key == COMID_ROLE then Some(Role)
    else if key == COMID_TRIPLES then Some(Triples)
    else if key == COMID_REFERENCE_TRIPLES then Some(Environment)
    else if key == COMID_CLASS then Some(Class)
    else if key == COMID_MVAL then Some(MeasurementValue)
    else if key == COMID_DIGESTS then Some(Hash)
    else None
  }

  const CORIM_TAG := 500
  const UNSIGNED_TAG := 501
  const MID_TAG := 506
  const CORIM_TAGS_LABEL := 1

  /** `_name_for(CORIM_TAGS, tag)` */
  function TagName(tag: int): Option<Name> {
    if tag == 500 || tag == 501 || tag == 502 || tag == 505 || tag == 506 then Some(Container(tag)) else None
  }

  // ---- spelling ---------------------------------------------------------------------------

  // Each table's words apart, so that a proof about one need not look at the others.

  function UnsignedCorimWord(number: int): string {
    if number == 0 then "corim_id"
    else if number == 1 then "corim_tags"
    else if number == 2 then "corim_dependent_rims"
    else "corim_profile"
  }

  function ConciseMidWord(number: int): string {
    if number == 0 then "comid_language"
    else if number == 1 then "comid_tag_identity"
    else if number == 2 then "comid_entity"
    else if number == 3 then "comid_linked_tags"
    else "comid_triples"
  }

  function TagIdentityWord(number: int): string {
    if number == 0 then "comid_tag_id"
    else "comid_tag_version"
  }

  function EntityWord(number: int): string {
    if number == 0 then "comid_entity_name"
    else if number == 1 then "comid_reg_id"
    else "comid_role"
  }

  function TriplesWord(number: int): string {
    if number == 0 then "comid_reference_triples"
    else if number == 1 then "comid_endorsed_triples"
    else if number == 2 then "comid_identity_triples"
    else "comid_attest_key_triples"
  }

  function EnvironmentWord(number: int): string {
    if number == 0 then "comid_class"
    else if number == 1 then "comid_instance"
    else "comid_group"
  }

  function ClassWord(number: int): string {
    if number == 0 then "comid_class_id"
    else if number == 1 then "comid_vendor"
    else if number == 2 then "comid_model"
    else if number == 3 then "comid_layer"
    else "comid_index"
  }

  function MeasurementWord(number: int): string {
    if number == 0 then "comid_mkey"
    else "comid_mval"
  }

  function MeasurementValueWord(number: int): string {
    if number == 0 then "comid_ver"
    else if number == 1 then "comid_svn"
    else if number == 2 then "comid_digests"
    else if number == 3 then "comid_flags"
    else if number == 4 then "comid_raw_value"
    else if number == 5 then "comid_raw_value_mask"
    else if number == 6 then "comid_mac_addr"
    else if number == 7 then "comid_ip_addr"
    else if number == 8 then "comid_serial_number"
    else if number == 9 then "comid_ueid"
    else if number == 10 then "comid_uuid"
    else "comid_name"
  }

  function RoleWord(number: int): string {
    if number == 0 then "comid_tag_creator"
    else if number == 1 then "comid_creator"
    else "comid_maintainer"
  }

  function HashWord(number: int): string {
    if number == 1 then "sha256"
    else if number == 7 then "sha384"
    else "sha512"
  }

  function Word(t: Table, number: int): string {
    match t
    case UnsignedCorim => UnsignedCorimWord(number)
    case ConciseMid => ConciseMidWord(number)
    case TagIdentity => TagIdentityWord(number)
    case Entity => EntityWord(number)
    case Triples => TriplesWord(number)
    case Environment => EnvironmentWord(number)
    case Class => ClassWord(number)
    case Measurement => MeasurementWord(number)
    case MeasurementValue => MeasurementValueWord(number)
    case Role => RoleWord(number)
    case Hash => HashWord(number)
  }

  /** `table[item]`, if the string is a name of the table: every table lists its names by
      ascending label, here from `number` on. */
  function Spelled(t: Table, number: nat, text: seq<byte>): (r: Option<int>)
    ensures r.Some? ==> number <= r.value < MOST_LABELS
    decreases MOST_LABELS - number
  {
    if number >= MOST_LABELS then None
    else if Has(t, number) && Ascii(Word(t, number)) == text then Some(number)
    else Spelled(t, number + 1, text)
  }

  const MOST_LABELS := 12

  function TextLabel(t: Table, text: seq<byte>): Option<int> {
    Spelled(t, 0, text)
  }

  // ---- documents --------------------------------------------------------------------------

  datatype Json = Number(n: int) | Str(text: seq<byte>) | Flag(b: bool) | Nothing
                | List(items: seq<Json>) | Object(members: seq<Member>)

  datatype Member = Member(name: Name, value: Json)

  datatype Fault = NoLabel(name: Name, key: Name) | NoName(key: Name) | BadTag(tag: int)
                 | NotCorim | NotUnsigned | NotAMap | Codec(error: Cbor.Error)

  datatype Result<+T> = Ok(value: T) | Err(fault: Fault)

  function PutMember(ms: seq<Member>, n: Name, v: Json): seq<Member> {
    if ms == [] then [Member(n, v)]
    else if ms[0].name == n then [Member(n, v)] + ms[1..]
    else [ms[0]] + PutMember(ms[1..], n, v)
  }

  // ---- encoding ---------------------------------------------------------------------------

  /** The label of a name standing under `key`. */
  function LabelUnder(key: Name, n: Name): Option<int> {
    var t := LogicMap(key);
    if t.Some? && Label(t.value, n).Some? then Label(t.value, n) else AnyLabel(n)
  }

  /** `_to_cbor` */
  function ToCbor(v: Json, key: Name): Result<Cbor.Item>
    decreases v, 1
  {
    match v
    case Number(n) => Ok(Cbor.Int(n))
    case Str(text) => Ok(Cbor.Text(text))
    case Flag(b) => Ok(Cbor.Bool(b))
    case Nothing => Ok(Cbor.Null)
    case List(items) =>
      (match ToCborItems(items, key)
       case Err(f) => Err(f)
       case Ok(out) => Ok(Cbor.Array(out)))
    case Object(members) =>
      (match ToCborMembers(members, key, [])
       case Err(f) => Err(f)
       case Ok(out) => Ok(Cbor.Map(out)))
  }

  /** One item of a list under `key`: a name of the key's table becomes its label. */
  function ToCborItem(v: Json, key: Name): Result<Cbor.Item>
    decreases v, 2
  {
    var t := LogicMap(key);
    if v.Str? && t.Some? && TextLabel(t.value, v.text).Some? then Ok(Cbor.Int(TextLabel(t.value, v.text).value))
    else ToCbor(v, key)
  }

  function ToCborItems(items: seq<Json>, key: Name): Result<seq<Cbor.Item>>
    decreases items, 0
  {
    if items == [] then Ok([])
    else match ToCborItem(items[0], key)
      case Err(f) => Err(f)
      case Ok(first) =>
        match ToCborItems(items[1..], key)
        case Err(f) => Err(f)
        case Ok(rest) => Ok([first] + rest)
  }

  function ToCborMember(m: Member): Result<Cbor.Item>
    decreases m, 0
  {
    ToCbor(m.value, m.name)
  }

  function ToCborMembers(members: seq<Member>, key: Name, out: seq<Cbor.Pair>): Result<seq<Cbor.Pair>>
    decreases members, 0
  {
    if members == [] then Ok(out)
    else
      var n := members[0].name;
      match LabelUnder(key, n)
      case None => Err(NoLabel(n, key))
      case Some(number) =>
        match ToCborMember(members[0])
        case Err(f) => Err(f)
        case Ok(x) => ToCborMembers(members[1..], key, Cbor.Put(out, Cbor.Int(number), x))
  }

  /** The bare document inside the two containers, if it is wrapped. */
  function Unwrap(doc: seq<Member>): Json {
    if |doc| == 1 && doc[0].name == CORIM && doc[0].value.Object?
       && |doc[0].value.members| == 1 && doc[0].value.members[0].name == UNSIGNED_CORIM_MAP
    then doc[0].value.members[0].value
    else Object(doc)
  }

  function Wrap(doc: Json): seq<Member> {
    [Member(CORIM, Object([Member(UNSIGNED_CORIM_MAP, doc)]))]
  }

  /** The tagged item `json_to_cbor` encodes. */
  function Tagged(body: seq<Cbor.Pair>): Cbor.Item {
    var tags := Cbor.Get(body, Cbor.Int(CORIM_TAGS_LABEL));
    var body := if tags.Some? && tags.value != Cbor.Null
                then Cbor.Put(body, Cbor.Int(CORIM_TAGS_LABEL), Cbor.Tag(MID_TAG, tags.value))
                else body;
    Cbor.Tag(CORIM_TAG, Cbor.Tag(UNSIGNED_TAG, Cbor.Map(body)))
  }

  /** `json_to_cbor`. NotAMap is the AttributeError of a wrapped document that is no object. */
  function JsonToCbor(doc: seq<Member>): Result<seq<byte>> {
    match ToCbor(Unwrap(doc), UNSIGNED_CORIM_MAP)
    case Err(f) => Err(f)
    case Ok(body) =>
      if !body.Map? then Err(NotAMap)
      else match Cbor.Dumps(Tagged(body.pairs))
        case Ok(blob) => Ok(blob)
        case Err(e) => Err(Codec(e))
  }

  // ---- decoding ---------------------------------------------------------------------------

  predicate IsInt(v: Cbor.Item) { v.Int? || v.Bool? }

  /** Which table names the labels of a map under `key`: in a reference triple a map without
      label 0 is the measurement. */
  function TableFor(key: Name, pairs: seq<Cbor.Pair>): Option<Table> {
    if key == COMID_REFERENCE_TRIPLES && !Cbor.Holds(pairs, Cbor.Int(0)) then Some(Measurement) else LogicMap(key)
  }

  function NameUnder(t: Option<Table>, number: Cbor.Item): Option<Name> {
    if !IsInt(number) then None
    else
      var n := Cbor.KeyClass(number).n;
      if t.Some? && NameFor(t.value, n).Some? then NameFor(t.value, n) else AnyName(n)
  }

  /** `_to_json`. A byte string is read as text; the model keeps the bytes and does not put in
      the replacement characters. */
  function ToJson(v: Cbor.Item, key: Name): Result<Json>
    decreases v, 1
  {
    match v
    case Tag(tag, item) =>
      if tag == MID_TAG then ToJson(item, key)
      else
        (match TagName(tag)
         case None => Err(BadTag(tag))
         case Some(n) =>
           match ToJson(item, n)
           case Err(f) => Err(f)
           case Ok(x) => Ok(Object([Member(n, x)])))
    case Map(pairs) =>
      (match ToJsonPairs(pairs, TableFor(key, pairs), key, [])
       case Err(f) => Err(f)
       case Ok(out) => Ok(Object(out)))
    case Array(items) =>
      (match ToJsonItems(items, key)
       case Err(f) => Err(f)
       case Ok(out) => Ok(List(out)))
    case ByteString(b) => Ok(Str(b))
    case Text(u) => Ok(Str(u))
    case Int(n) => Ok(Number(n))
    case Bool(b) => Ok(Flag(b))
    case Null => Ok(Nothing)
  }

  /** One item of an array under `key`: a label of the key's table becomes its name. */
  function ToJsonItem(v: Cbor.Item, key: Name): Result<Json>
    decreases v, 2
  {
    var t := LogicMap(key);
    if t.Some? && IsInt(v) && Has(t.value, Cbor.KeyClass(v).n)
    then Ok(Str(Ascii(Word(t.value, Cbor.KeyClass(v).n))))
    else ToJson(v, key)
  }

  function ToJsonItems(items: seq<Cbor.Item>, key: Name): Result<seq<Json>>
    decreases items, 0
  {
    if items == [] then Ok([])
    else match ToJsonItem(items[0], key)
      case Err(f) => Err(f)
      case Ok(first) =>
        match ToJsonItems(items[1..], key)
        case Err(f) => Err(f)
        case Ok(rest) => Ok([first] + rest)
  }

  function ToJsonValue(p: Cbor.Pair, key: Name): Result<Json>
    decreases p, 0
  {
    ToJson(p.value, key)
  }

  function ToJsonPairs(pairs: seq<Cbor.Pair>, t: Option<Table>, key: Name, out: seq<Member>): Result<seq<Member>>
    decreases pairs, 0
  {
    if pairs == [] then Ok(out)
    else match NameUnder(t, pairs[0].key)
      case None => Err(NoName(key))
      case Some(n) =>
        match ToJsonValue(pairs[0], n)
        case Err(f) => Err(f)
        case Ok(x) => ToJsonPairs(pairs[1..], t, key, PutMember(out, n, x))
  }

  /** `cbor_to_json` */
  function CborToJson(blob: seq<byte>): Result<Json> {
    match Cbor.Loads(blob, false)
    case Err(e) => Err(Codec(e))
    case Ok(item) =>
      if !item.Tag? || item.tag != CORIM_TAG then Err(NotCorim)
      else if !item.item.Tag? || item.item.tag != UNSIGNED_TAG then Err(NotUnsigned)
      else if !item.item.item.Map? then Err(NotAMap)
      else ToJson(item, Other([]))
  }
}
