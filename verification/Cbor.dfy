/**
 rats/cose.py: the CBOR codec (RFC 8949, section 3). Values are what Python holds: text is
 kept as its UTF-8 bytes, a dictionary as its pairs in insertion order.
 */
module Cbor {
  import opened Bytes

  datatype Item =
    | Int(n: int)
    | ByteString(b: seq<byte>)
    | Text(utf8: seq<byte>)
    | Array(items: seq<Item>)
    | Map(pairs: seq<Pair>)
    | Tag(tag: int, item: Item)
    | Bool(value: bool)
    | Null

  datatype Pair = Pair(key: Item, value: Item)

  datatype Error = NegativeArgument | DoesNotFit | Truncated | Indefinite | Reserved | BadText
                 | ContainerKey | UnhashableKey | Unsupported | Trailing

  datatype Result<+T> = Ok(value: T) | Err(error: Error)

  const UINT := 0
  const NEGINT := 1
  const BYTES := 2
  const TEXT := 3
  const ARRAY := 4
  const MAP := 5
  const TAG := 6
  const SIMPLE := 7

  const LIMIT := 0x1_0000_0000_0000_0000

  // ---- text -------------------------------------------------------------------

  predicate Continuation(b: byte) { 0x80 <= b < 0xC0 }

  /** Strict UTF-8 (RFC 3629, section 4): what `decode("utf-8")` accepts. */
  predicate ValidUtf8(s: seq<byte>) {
    s == []
    || (s[0] < 0x80 && ValidUtf8(s[1..]))
    || (|s| >= 2 && 0xC2 <= s[0] < 0xE0 && Continuation(s[1]) && ValidUtf8(s[2..]))
    || (|s| >= 3 && 0xE0 <= s[0] < 0xF0 && Continuation(s[1]) && Continuation(s[2])
        && (s[0] == 0xE0 ==> s[1] >= 0xA0) && (s[0] == 0xED ==> s[1] < 0xA0) && ValidUtf8(s[3..]))
    || (|s| >= 4 && 0xF0 <= s[0] < 0xF5 && Continuation(s[1]) && Continuation(s[2]) && Continuation(s[3])
        && (s[0] == 0xF0 ==> s[1] >= 0x90) && (s[0] == 0xF4 ==> s[1] < 0x90) && ValidUtf8(s[4..]))
  }

  // ---- dictionaries -------------------------------------------------------------

  /** Hashable values; the codec builds no tuples. */
  predicate IsKey(k: Item) { k.Int? || k.ByteString? || k.Text? || k.Bool? || k.Null? }

  /** Python's `==` on keys: `True == 1` and `False == 0`. */
  function KeyClass(k: Item): Item {
    if k.Bool? then Int(if k.value then 1 else 0) else k
  }

  predicate Holds(pairs: seq<Pair>, k: Item) {
    pairs != [] && (KeyClass(pairs[0].key) == KeyClass(k) || Holds(pairs[1..], k))
  }

  /** `out[k] = v`: an equal key keeps its place and its spelling. */
  function Put(pairs: seq<Pair>, k: Item, v: Item): seq<Pair> {
    if pairs == [] then [Pair(k, v)]
    else if KeyClass(pairs[0].key) == KeyClass(k) then [Pair(pairs[0].key, v)] + pairs[1..]
    else [pairs[0]] + Put(pairs[1..], k, v)
  }

  /** `d.get(k)` */
  function Get(pairs: seq<Pair>, k: Item): Option<Item> {
    if pairs == [] then None
    else if KeyClass(pairs[0].key) == KeyClass(k) then Some(pairs[0].value)
    else Get(pairs[1..], k)
  }

  predicate Dictionary(pairs: seq<Pair>) {
    pairs == [] || (IsKey(pairs[0].key) && !Holds(pairs[1..], pairs[0].key) && Dictionary(pairs[1..]))
  }

  // ---- encoding -----------------------------------------------------------------

  /** `_head` */
  function Head(major: nat, arg: int): (r: Result<seq<byte>>)
    requires major < 8
    ensures r.Ok? <==> 0 <= arg < LIMIT
  {
    if arg < 0 then Err(NegativeArgument)
    else if arg < 24 then Ok([32 * major + arg])
    else if arg < 0x100 then Ok([32 * major + 24, arg])
    else if arg < 0x1_0000 then Ok([32 * major + 25] + ToBE(arg, 2))
    else if arg < 0x1_0000_0000 then Ok([32 * major + 26] + ToBE(arg, 4))
    else if arg < LIMIT then Ok([32 * major + 27] + ToBE(arg, 8))
    else Err(DoesNotFit)
  }

  /** A value Python can hold whose heads all fit in 64 bits. */
  predicate Encodable(v: Item)
    decreases v, 1
  {
    match v
    case Int(n) => -LIMIT <= n < LIMIT
    case ByteString(b) => |b| < LIMIT
    case Text(u) => |u| < LIMIT && ValidUtf8(u)
    case Array(items) => |items| < LIMIT && AllEncodable(items)
    case Map(pairs) => |pairs| < LIMIT && Dictionary(pairs) && PairsEncodable(pairs)
    case Tag(tag, item) => 0 <= tag < LIMIT && Encodable(item)
    case Bool(_) => true
    case Null => true
  }

  predicate AllEncodable(items: seq<Item>)
    decreases items, 0
  {
    items == [] || (Encodable(items[0]) && AllEncodable(items[1..]))
  }

  predicate PairsEncodable(pairs: seq<Pair>)
    decreases pairs, 0
  {
    pairs == [] || (PairEncodable(pairs[0]) && PairsEncodable(pairs[1..]))
  }

  predicate PairEncodable(p: Pair)
    decreases p, 0
  {
    Encodable(p.key) && Encodable(p.value)
  }

  /** The bytes of an encodable value. */
  function Enc(v: Item): (e: seq<byte>)
    requires Encodable(v)
    ensures |e| > 0
    decreases v, 1
  {
    match v
    case Int(n) => if n >= 0 then Head(UINT, n).value else Head(NEGINT, -1 - n).value
    case ByteString(b) => Head(BYTES, |b|).value + b
    case Text(u) => Head(TEXT, |u|).value + u
    case Array(items) => Head(ARRAY, |items|).value + EncAll(items)
    case Map(pairs) => Head(MAP, |pairs|).value + EncPairs(pairs)
    case Tag(tag, item) => Head(TAG, tag).value + Enc(item)
    case Bool(b) => if b then [0xF5] else [0xF4]
    case Null => [0xF6]
  }

  function EncAll(items: seq<Item>): seq<byte>
    requires AllEncodable(items)
    decreases items, 0
  {
    if items == [] then [] else Enc(items[0]) + EncAll(items[1..])
  }

  function EncPairs(pairs: seq<Pair>): seq<byte>
    requires PairsEncodable(pairs)
    decreases pairs, 0
  {
    if pairs == [] then [] else EncPair(pairs[0]) + EncPairs(pairs[1..])
  }

  function EncPair(p: Pair): seq<byte>
    requires PairEncodable(p)
    decreases p, 0
  {
    Enc(p.key) + Enc(p.value)
  }

  /** `dumps`: one head that does not fit anywhere fails the whole encoding. */
  function Dumps(v: Item): Result<seq<byte>> {
    if Encodable(v) then Ok(Enc(v)) else Err(DoesNotFit)
  }

  // ---- decoding -----------------------------------------------------------------

  /** `_read_arg`: major type, argument and the offset after the head. */
  function ReadArg(buf: seq<byte>, off: nat): (r: Result<(nat, nat, nat)>)
    ensures r.Ok? ==> off < r.value.2 <= |buf| && r.value.0 < 8
  {
    if off >= |buf| then Err(Truncated)
    else
      var major, low := buf[off] / 32, buf[off] % 32;
      if low < 24 then Ok((major, low, off + 1))
      else if low == 31 then Err(Indefinite)
      else if low > 27 then Err(Reserved)
      else
        var n := if low == 24 then 1 else if low == 25 then 2 else if low == 26 then 4 else 8;
        if off + 1 + n > |buf| then Err(Truncated)
        else Ok((major, BE(buf[off + 1..off + 1 + n]), off + 1 + n))
  }

  function Simple(arg: nat): Result<Item> {
    if arg == 20 then Ok(Bool(false))
    else if arg == 21 then Ok(Bool(true))
    else if arg == 22 then Ok(Null)
    else Err(Unsupported)
  }

  /** `_load`. That it is defined at all says that it terminates on every input, however
      large a declared count is; its contract says that it always moves forward. */
  function Load(buf: seq<byte>, off: nat): (r: Result<(Item, nat)>)
    requires off <= |buf|
    ensures r.Ok? ==> off < r.value.1 <= |buf|
    decreases |buf| - off, 0, 0
  {
    match ReadArg(buf, off)
    case Err(e) => Err(e)
    case Ok((major, arg, o)) =>
      if major == UINT then Ok((Int(arg), o))
      else if major == NEGINT then Ok((Int(-1 - arg), o))
      else if major == BYTES || major == TEXT then
        if o + arg > |buf| then Err(Truncated)
        else if major == BYTES then Ok((ByteString(buf[o..o + arg]), o + arg))
        else if ValidUtf8(buf[o..o + arg]) then Ok((Text(buf[o..o + arg]), o + arg))
        else Err(BadText)
      else if major == ARRAY then
        match LoadItems(buf, o, arg, [])
        case Err(e) => Err(e)
        case Ok((items, o')) => Ok((Array(items), o'))
      else if major == MAP then
        match LoadPairs(buf, o, arg, [])
        case Err(e) => Err(e)
        case Ok((pairs, o')) => Ok((Map(pairs), o'))
      else if major == TAG then
        match Load(buf, o)
        case Err(e) => Err(e)
        case Ok((item, o')) => Ok((Tag(arg, item), o'))
      else
        match Simple(arg)
        case Err(e) => Err(e)
        case Ok(item) => Ok((item, o))
  }

  /** `n` more items of an array whose first items are in `acc`. */
  function LoadItems(buf: seq<byte>, off: nat, n: nat, acc: seq<Item>): (r: Result<(seq<Item>, nat)>)
    requires off <= |buf|
    ensures r.Ok? ==> off <= r.value.1 <= |buf|
    decreases |buf| - off, 1, n
  {
    if n == 0 then Ok((acc, off))
    else match Load(buf, off)
      case Err(e) => Err(e)
      case Ok((item, o)) => LoadItems(buf, o, n - 1, acc + [item])
  }

  /** `n` more pairs of a map whose first pairs are in `acc`. */
  function LoadPairs(buf: seq<byte>, off: nat, n: nat, acc: seq<Pair>): (r: Result<(seq<Pair>, nat)>)
    requires off <= |buf|
    ensures r.Ok? ==> off <= r.value.1 <= |buf|
    decreases |buf| - off, 1, n
  {
    if n == 0 then Ok((acc, off))
    else match Load(buf, off)
      case Err(e) => Err(e)
      case Ok((k, o)) =>
        match Load(buf, o)
        case Err(e) => Err(e)
        case Ok((v, o')) =>
          if k.Array? || k.Map? then Err(ContainerKey)
          else if k.Tag? then Err(UnhashableKey)
          else LoadPairs(buf, o', n - 1, Put(acc, k, v))
  }

  /** `loads` */
  function Loads(buf: seq<byte>, allowTrailing: bool): Result<Item> {
    match Load(buf, 0)
    case Err(e) => Err(e)
    case Ok((item, off)) => if off != |buf| && !allowTrailing then Err(Trailing) else Ok(item)
  }

  /** `_load` as the source runs it: recursion for nesting, loops that move the offset. */
  method LoadItem(buf: seq<byte>, start: nat) returns (r: Result<(Item, nat)>)
    requires start <= |buf|
    ensures r == Load(buf, start)
    decreases |buf| - start
  {
    hide ReadArg, ValidUtf8, Put, Simple;
    var head := ReadArg(buf, start);
    if head.Err? {
      return Err(head.error);
    }
    var (major, arg, off) := head.value;
    if major == UINT {
      return Ok((Int(arg), off));
    }
    if major == NEGINT {
      return Ok((Int(-1 - arg), off));
    }
    if major == BYTES || major == TEXT {
      if off + arg > |buf| {
        return Err(Truncated);
      }
      var raw := buf[off..off + arg];
      if major == BYTES {
        return Ok((ByteString(raw), off + arg));
      }
      return if ValidUtf8(raw) then Ok((Text(raw), off + arg)) else Err(BadText);
    }
    if major == ARRAY {
      var out := [];
      ghost var all := LoadItems(buf, off, arg, []);
      for i := 0 to arg
        invariant start < off <= |buf|
        invariant all == LoadItems(buf, off, arg - i, out)
      {
        var item := LoadItem(buf, off);
        if item.Err? {
          return Err(item.error);
        }
        out, off := out + [item.value.0], item.value.1;
      }
      return Ok((Array(out), off));
    }
    if major == MAP {
      var out := [];
      ghost var all := LoadPairs(buf, off, arg, []);
      for i := 0 to arg
        invariant start < off <= |buf|
        invariant all == LoadPairs(buf, off, arg - i, out)
      {
        var k := LoadItem(buf, off);
        if k.Err? {
          return Err(k.error);
        }
        var v := LoadItem(buf, k.value.1);
        if v.Err? {
          return Err(v.error);
        }
        off := v.value.1;
        if k.value.0.Array? || k.value.0.Map? {
          return Err(ContainerKey);
        }
        if k.value.0.Tag? {
          return Err(UnhashableKey);
        }
        out := Put(out, k.value.0, v.value.0);
      }
      return Ok((Map(out), off));
    }
    if major == TAG {
      var inner := LoadItem(buf, off);
      return if inner.Ok? then Ok((Tag(arg, inner.value.0), inner.value.1)) else Err(inner.error);
    }
    var item := Simple(arg);
    return if item.Ok? then Ok((item.value, off)) else Err(item.error);
  }
}
