/** SQL values and their order (types.rs). */
module Values {
  import opened Bytes

  /** Text is kept as its UTF-8 bytes, a float as its 64 bits. */
  datatype Value = Null | Integer(i: i64) | Real(bits: u64) | Text(s: seq<byte>) | Blob(b: seq<byte>)

  datatype Ordering = Less | Equal | Greater {
    function Reverse(): Ordering {
      match this case Less => Greater case Equal => Equal case Greater => Less
    }
  }

  /** What the model leaves to the language's own library: float arithmetic, number parsing, repair of
      malformed UTF-8, the order in which a hash map is walked. Every property holds for any choice of
      these functions, as long as the walk is one (`Walks`). */
  datatype Lib = Lib(
    floatOf: i64 -> u64,
    intOf: u64 -> i64,
    add: (u64, u64) -> u64,
    subtract: (u64, u64) -> u64,
    multiply: (u64, u64) -> u64,
    divide: (u64, u64) -> u64,
    compareFloats: (u64, u64) -> Option<Ordering>,
    floatText: u64 -> seq<byte>,
    parseInt: seq<byte> -> Option<i64>,
    parseFloat: seq<byte> -> Option<u64>,
    zero: u64,
    lossy: seq<byte> -> seq<byte>,
    hashOrder: set<seq<byte>> -> seq<seq<byte>>)

  /** A walk over a hash map meets every key once. */
  ghost predicate Walks(lib: Lib) {
    forall s: set<seq<byte>> :: multiset(lib.hashOrder(s)) == multiset(s)
  }

  // ---- Conversions --------------------------------------------------------------------

  function AsInteger(lib: Lib, v: Value): Option<i64> {
    match v
    case Integer(i) => Some(i)
    case Real(r) => Some(lib.intOf(r))
    case Text(s) => lib.parseInt(s)
    case _ => None
  }

  function AsReal(lib: Lib, v: Value): Option<u64> {
    match v
    case Integer(i) => Some(lib.floatOf(i))
    case Real(r) => Some(r)
    case Text(s) => lib.parseFloat(s)
    case _ => None
  }

  function Digits(n: nat): seq<byte> {
    if n < 10 then [48 + n] else Digits(n / 10) + [48 + n % 10]
  }

  function IntText(i: int): seq<byte> {
    if i < 0 then [45] + Digits(-i) else Digits(i)
  }

  function ToText(lib: Lib, v: Value): seq<byte> {
    match v
    case Null => []
    case Integer(i) => IntText(i)
    case Real(r) => lib.floatText(r)
    case Text(s) => s
    case Blob(b) => lib.lossy(b)
  }

  // ---- Order ------------------------------------------------------------------------------

  function CompareInts(a: int, b: int): Ordering {
    if a < b then Less else if a == b then Equal else Greater
  }

  /** Byte strings in dictionary order. */
  function CompareBytes(a: seq<byte>, b: seq<byte>): Ordering {
    if a == [] then (if b == [] then Equal else Less)
    else if b == [] then Greater
    else if a[0] != b[0] then CompareInts(a[0], b[0])
    else CompareBytes(a[1..], b[1..])
  }

  /** `partial_cmp(..).unwrap_or(Equal)`. */
  function CompareReals(lib: Lib, a: u64, b: u64): Ordering {
    match lib.compareFloats(a, b) case Some(o) => o case None => Equal
  }

  function Compare(lib: Lib, a: Value, b: Value): Ordering {
    match (a, b)
    case (Null, Null) => Equal
    case (Null, _) => Less
    case (_, Null) => Greater
    case (Integer(x), Integer(y)) => CompareInts(x, y)
    case (Integer(x), Real(y)) => CompareReals(lib, lib.floatOf(x), y)
    case (Real(x), Integer(y)) => CompareReals(lib, x, lib.floatOf(y))
    case (Real(x), Real(y)) => CompareReals(lib, x, y)
    case (Text(x), Text(y)) => CompareBytes(x, y)
    case (Blob(x), Blob(y)) => CompareBytes(x, y)
    case _ => CompareBytes(ToText(lib, a), ToText(lib, b))
  }

  lemma {:induction false} BytesOrder(a: seq<byte>, b: seq<byte>)
    ensures CompareBytes(b, a) == CompareBytes(a, b).Reverse()
    ensures CompareBytes(a, b) == Equal <==> a == b
  {
    if a != [] && b != [] && a[0] == b[0] {
      BytesOrder(a[1..], b[1..]);
      assert a == [a[0]] + a[1..] && b == [b[0]] + b[1..];
    }
  }

  lemma {:induction false} BytesTransitive(a: seq<byte>, b: seq<byte>, c: seq<byte>)
    requires CompareBytes(a, b) != Greater && CompareBytes(b, c) != Greater
    ensures CompareBytes(a, c) != Greater
    ensures CompareBytes(a, c) == Equal ==> CompareBytes(a, b) == Equal && CompareBytes(b, c) == Equal
  {
    if a != [] && b != [] && c != [] && a[0] == b[0] == c[0] {
      BytesTransitive(a[1..], b[1..], c[1..]);
    }
  }

  // ---- When the order is one ------------------------------------------------------------------

  datatype Kind = Integers | Texts | Blobs

  /** The values of a column that holds nulls and values of one kind. */
  predicate OfKind(v: Value, kind: Kind) {
    match v
    case Null => true
    case Integer(_) => kind == Integers
    case Real(_) => false
    case Text(_) => kind == Texts
    case Blob(_) => kind == Blobs
  }

  lemma CompareReverses(lib: Lib, a: Value, b: Value, kind: Kind)
    requires OfKind(a, kind) && OfKind(b, kind)
    ensures Compare(lib, b, a) == Compare(lib, a, b).Reverse()
    ensures Compare(lib, a, b) == Equal <==> a == b
  {
    if a.Text? && b.Text? { BytesOrder(a.s, b.s); }
    if a.Blob? && b.Blob? { BytesOrder(a.b, b.b); }
  }

  lemma CompareTransitive(lib: Lib, a: Value, b: Value, c: Value, kind: Kind)
    requires OfKind(a, kind) && OfKind(b, kind) && OfKind(c, kind)
    requires Compare(lib, a, b) != Greater && Compare(lib, b, c) != Greater
    ensures Compare(lib, a, c) != Greater
    ensures Compare(lib, a, c) == Equal ==> Compare(lib, a, b) == Equal && Compare(lib, b, c) == Equal
  {
    if a.Text? && b.Text? && c.Text? { BytesTransitive(a.s, b.s, c.s); }
    if a.Blob? && b.Blob? && c.Blob? { BytesTransitive(a.b, b.b, c.b); }
  }

  /** Among integers and texts together the comparison runs in circles: 9 < 10 < "5" < 9. */
  lemma CompareCircular(lib: Lib)
    ensures Compare(lib, Integer(9), Integer(10)) == Less
    ensures Compare(lib, Integer(10), Text([53])) == Less
    ensures Compare(lib, Text([53]), Integer(9)) == Less
    ensures Compare(lib, Integer(10), Integer(9)) == Compare(lib, Text([53]), Integer(10)) == Compare(lib, Integer(9), Text([53])) == Greater
  {
    assert Digits(10) == [49, 48] by { assert Digits(1) == [49]; }
    assert Digits(9) == [57];
  }
}
