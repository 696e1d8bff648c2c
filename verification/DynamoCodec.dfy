/** How keys and values travel to a table with a partition and a sort key. */
module DynamoCodec {
  import opened Base
  import opened ReplicatedKv
  import Decimal

  // ----- Keys -----

  datatype TableKey = TableKey(pk: string, sk: string)

  /** `str::split_once('/')`. */
  function SplitOnce(s: string): Option<TableKey> {
    if s == [] then None
    else if s[0] == '/' then Some(TableKey([], s[1..]))
    else
      match SplitOnce(s[1..])
      case None => None
      case Some(TableKey(pk, sk)) => Some(TableKey([s[0]] + pk, sk))
  }

  /** The table key of a rendered key, if both halves are non-empty. */
  function SplitKey(key: Key): Option<TableKey> {
    match SplitOnce(key)
    case None => None
    case Some(t) => if t.pk != "" && t.sk != "" then Some(t) else None
  }

  function RenderKey(t: TableKey): Key {
    t.pk + "/" + t.sk
  }

  lemma {:induction false} SplitOnceFindsFirstSlash(s: string)
    ensures SplitOnce(s).Some? ==> s == RenderKey(SplitOnce(s).value) && '/' !in SplitOnce(s).value.pk
    ensures SplitOnce(s).None? <==> '/' !in s
  {
    if s != [] {
      assert s == [s[0]] + s[1..] && ('/' in s <==> s[0] == '/' || '/' in s[1..]);
      if s[0] != '/' {
        SplitOnceFindsFirstSlash(s[1..]);
      }
    }
  }

  lemma {:induction false} SplitOnceOfRendered(t: TableKey)
    requires '/' !in t.pk
    ensures SplitOnce(RenderKey(t)) == Some(t)
    decreases |t.pk|
  {
    var s := RenderKey(t);
    if t.pk == [] {
      assert s[1..] == t.sk;
    } else {
      assert t.pk == [t.pk[0]] + t.pk[1..];
      var rest := TableKey(t.pk[1..], t.sk);
      assert s[1..] == RenderKey(rest);
      SplitOnceOfRendered(rest);
    }
  }

  /** Splitting and rendering undo each other: a key splits into a table key
      exactly when it is that table key rendered and the halves are legal. */
  lemma SplitRenderInverse(key: Key, t: TableKey)
    ensures SplitKey(key) == Some(t) <==> key == RenderKey(t) && t.pk != "" && t.sk != "" && '/' !in t.pk
  {
    SplitOnceFindsFirstSlash(key);
    if key == RenderKey(t) && '/' !in t.pk {
      SplitOnceOfRendered(t);
    }
  }

  /** Distinct accepted keys never share a row. */
  lemma SplitInjective(a: Key, b: Key)
    requires SplitKey(a).Some? && SplitKey(a) == SplitKey(b)
    ensures a == b
  {
    SplitRenderInverse(a, SplitKey(a).value);
    SplitRenderInverse(b, SplitKey(b).value);
  }

  // ----- Values -----

  /** An attribute value on the wire; numbers travel as decimal text. This
      backend never writes lists, nor the sets and nulls that `Other` stands for. */
  datatype AttributeValue =
    | AttrBool(flag: bool)
    | AttrN(digits: string)
    | AttrS(text: string)
    | AttrB(blob: seq<byte>)
    | AttrM(entries: map<string, AttributeValue>)
    | AttrL(elements: seq<AttributeValue>)
    | Other

  function EncodeValue(v: Value): AttributeValue {
    match v
    case Bool(flag) => AttrBool(flag)
    case U64(n) => AttrN(Decimal.Render(n))
    case Str(text) => AttrS(text)
    case Bytes(blob) => AttrB(blob)
    case Map(entries) => AttrM(map k | k in entries :: EncodeValue(entries[k]))
  }

  function EncodeEntries(entries: map<string, Value>): map<string, AttributeValue> {
    map k | k in entries :: EncodeValue(entries[k])
  }

  lemma EncodeMap(entries: map<string, Value>)
    ensures EncodeValue(Map(entries)) == AttrM(EncodeEntries(entries))
  {
  }

  /** `None` is the malformed-item transport error. */
  function DecodeValue(a: AttributeValue): Option<Value> {
    match a
    case AttrBool(flag) => Some(Bool(flag))
    case AttrN(digits) =>
      (match Decimal.ParseU64(digits)
       case None => None
       case Some(n) => Some(U64(n)))
    case AttrS(text) => Some(Str(text))
    case AttrB(blob) => Some(Bytes(blob))
    case AttrM(entries) =>
      if forall k | k in entries :: DecodeValue(entries[k]).Some?
      then Some(Map(map k | k in entries :: DecodeValue(entries[k]).value))
      else None
    case AttrL(_) => None
    case Other => None
  }

  /** Values of any nesting survive the trip. */
  lemma {:induction false} DecodeEncodeValue(v: Value)
    ensures DecodeValue(EncodeValue(v)) == Some(v)
  {
    match v
    case U64(n) => Decimal.ParseU64Render(n);
    case Map(entries) =>
      forall k | k in entries ensures DecodeValue(EncodeValue(entries[k])) == Some(entries[k]) {
        DecodeEncodeValue(entries[k]);
      }
      var encoded := EncodeEntries(entries);
      assert EncodeValue(v) == AttrM(encoded);
      var decoded := map k | k in encoded :: DecodeValue(encoded[k]).value;
      assert forall k | k in encoded :: DecodeValue(encoded[k]) == Some(entries[k]);
      assert DecodeValue(AttrM(encoded)) == Some(Map(decoded));
      assert decoded == entries;
    case _ =>
  }

  lemma EncodeInjective(a: Value, b: Value)
    ensures EncodeValue(a) == EncodeValue(b) <==> a == b
  {
    DecodeEncodeValue(a);
    DecodeEncodeValue(b);
  }

  /** One undecodable entry makes the whole item undecodable. */
  lemma UndecodableEntry(entries: map<string, AttributeValue>, k: string)
    requires k in entries && DecodeValue(entries[k]).None?
    ensures DecodeValue(AttrM(entries)).None?
  {
  }
}
