/**
  The widget record, the query area and the server configuration
  (domain/Widget.java, domain/Area.java, ServerConfigurationProperties.java).

  A widget is a value here: `clone` is a value copy and every setter is a
  record update `w.(z := ...)`.
 */
module Domain {

  /** A Java reference that may be null. */
  datatype Option<+T> = None | Some(value: T)

  /** A value, or the exception the source throws instead of returning one. */
  datatype Result<+T, +E> = Success(value: T) | Failure(error: E)

  type Id = string

  /** `LocalDateTime` is opaque to the model: the clock is a parameter. */
  type Timestamp = int

  const Int32Min: int := -0x8000_0000
  const Int32Max: int := 0x7FFF_FFFF

  predicate IsInt32(v: int) {
    Int32Min <= v <= Int32Max
  }

  /** Two's-complement wrap-around of a Java `int` expression. */
  function Wrap32(v: int): (r: int)
    ensures IsInt32(r)
    ensures (r - v) % 0x1_0000_0000 == 0
    ensures IsInt32(v) ==> r == v
  {
    var m := v % 0x1_0000_0000;
    if m <= Int32Max then m else m - 0x1_0000_0000
  }

  /**
    A widget: `id` is @Nullable in the source, `lastModified` too;
    `isNew` is the transient flag the z-index policy reads.
   */
  datatype Widget = Widget(
    id: Option<Id>,
    x: int,
    y: int,
    z: int,
    width: int,
    height: int,
    lastModified: Option<Timestamp>,
    isNew: bool)

  /** The widget a no-argument `new Widget()` yields: zero fields, null references. */
  const BlankWidget: Widget := Widget(None, 0, 0, 0, 0, 0, None, false)

  /** `Widget.clone`: a shallow, field-for-field copy. */
  function Clone(w: Widget): (c: Widget)
    ensures c.id == w.id && c.x == w.x && c.y == w.y && c.z == w.z
    ensures c.width == w.width && c.height == w.height
    ensures c.lastModified == w.lastModified && c.isNew == w.isNew
  {
    Widget(w.id, w.x, w.y, w.z, w.width, w.height, w.lastModified, w.isNew)
  }

  /** The argument of `equals(Object o)`, as seen from the receiver. */
  datatype EqualsArgument =
    | SameReference              // `this == o`
    | OtherWidget(other: Widget) // a distinct `Widget` object
    | NotAWidget                 // null or an object of another class

  /** What a call of `equals` does: it returns, or `requireNonNull` throws. */
  datatype EqualsOutcome = Returns(result: bool) | NullPointer

  /** `Widget.equals`: reference identity first, then the class test, then ids. */
  function Equals(self: Widget, o: EqualsArgument): (r: EqualsOutcome)
    ensures r == NullPointer <==> o.OtherWidget? && self.id.None?
    ensures r == Returns(true) ==> o.SameReference? || (o.OtherWidget? && o.other.id == self.id)
    ensures o.OtherWidget? && o.other.id != self.id ==> r != Returns(true)
  {
    match o
    case SameReference => Returns(true)
    case NotAWidget => Returns(false)
    case OtherWidget(other) =>
      if self.id.None? then NullPointer
      else Returns(other.id == self.id)
  }

  /** Java `String.hashCode`: h = 31 * h + c over the characters, in 32-bit arithmetic. */
  function StringHash(s: string): (h: int)
    ensures IsInt32(h)
  {
    if s == [] then 0
    else Wrap32(31 * StringHash(s[..|s| - 1]) + s[|s| - 1] as int)
  }

  /** `Widget.hashCode` is `Objects.hash(getId())`: 31 * 1 + hash(id), null hashing to 0. */
  function HashCode(w: Widget): (h: int)
    ensures IsInt32(h)
  {
    match w.id
    case None => 31
    case Some(s) => Wrap32(31 + StringHash(s))
  }

  /** Equality with another widget is equality of ids, whatever the other fields hold. */
  lemma EqualsIsIdEquality(a: Widget, b: Widget)
    requires a.id.Some?
    ensures Equals(a, OtherWidget(b)) == Returns(true) <==> a.id == b.id
    ensures Equals(a, OtherWidget(b)) == Returns(false) <==> a.id != b.id
  {
  }

  /** Changing any field other than the id never changes the answer of `equals`. */
  lemma EqualsIgnoresNonIdFields(a: Widget, b: Widget, c: Widget)
    requires b.id == c.id
    ensures Equals(a, OtherWidget(b)) == Equals(a, OtherWidget(c))
  {
  }

  /** `equals` is reflexive and rejects objects that are not widgets, even for a null id. */
  lemma EqualsReflexiveAndTyped(a: Widget)
    ensures Equals(a, SameReference) == Returns(true)
    ensures Equals(a, NotAWidget) == Returns(false)
  {
  }

  /** Between two widgets with ids, `equals` is symmetric. */
  lemma EqualsSymmetric(a: Widget, b: Widget)
    requires a.id.Some? && b.id.Some?
    ensures Equals(a, OtherWidget(b)) == Equals(b, OtherWidget(a))
  {
  }

  /** A receiver with a null id fails on any distinct widget argument. */
  lemma EqualsOnNullIdFails(a: Widget, b: Widget)
    requires a.id.None?
    ensures Equals(a, OtherWidget(b)) == NullPointer
  {
  }

  /** Equal widgets hash equally: the hash depends on nothing but the id. */
  lemma EqualWidgetsHashEqually(a: Widget, b: Widget)
    requires Equals(a, OtherWidget(b)) == Returns(true)
    ensures HashCode(a) == HashCode(b)
  {
  }

  /** A clone is the same value as its original and hashes like it, whatever its id. */
  lemma CloneIsCopy(w: Widget)
    ensures Clone(w) == w
    ensures HashCode(Clone(w)) == HashCode(w)
  {
  }

  /** A clone of a widget with an id equals its original under `equals`. */
  lemma CloneEqualsOriginal(w: Widget)
    requires w.id.Some?
    ensures Equals(Clone(w), OtherWidget(w)) == Returns(true)
  {
  }

  /** A query rectangle (domain/Area.java). */
  datatype Area = Area(x: int, y: int, width: int, height: int)

  /** The sentinel that stands for "no filtering". */
  const EmptyArea: Area := Area(Int32Min, Int32Min, Int32Max, Int32Max)

  /** ServerConfigurationProperties, without the storage selector. */
  datatype Config = Config(
    lockTimeout: int,
    initialZIndex: int,
    pageDefaultSize: int,
    pageMaxSize: int)

  /** The declared @Range of every property. */
  predicate ValidConfig(c: Config) {
    && 1 <= c.lockTimeout <= Int32Max
    && IsInt32(c.initialZIndex)
    && 1 <= c.pageDefaultSize <= Int32Max
    && 1 <= c.pageMaxSize <= Int32Max
  }
}
