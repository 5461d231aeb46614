/**
  The small part of the Kotlin/JVM runtime the list app leans on: nullable
  values, thrown exceptions, the 64-bit `Long` range, `String.isBlank`,
  `List.indexOf`, `List.getOrNull`, `MutableList.remove` and
  `String.substringBefore`.
 */
module Lang {

  /** A Kotlin nullable value: `None` is `null`. */
  datatype Option<+T> = None | Some(value: T)

  /** The exceptions the modelled code can throw. */
  datatype Exception =
    | NullPointer          // `!!` on null
    | IndexOutOfBounds     // `list[i]` / `get(i)` outside the list
    | IllegalArgument      // `require`, `requireNotNull`, unknown route
    | NegativeArraySize    // `arrayOfNulls(n)` with n < 0
    | SqliteFull           // AUTOINCREMENT counter exhausted
    | SqliteConstraint     // primary-key clash on a plain INSERT
    | BadParcel            // a parcel slot read as the wrong kind

  /** Either a value or the exception that escaped instead. */
  datatype Result<+T> = Ok(value: T) | Err(error: Exception)

  const MIN_LONG: int := -0x8000_0000_0000_0000
  const MAX_LONG: int := 0x7FFF_FFFF_FFFF_FFFF

  /** Kotlin `Long`: a signed 64-bit integer. */
  type Long = x: int | MIN_LONG <= x <= MAX_LONG

  /** Kotlin `Char.isWhitespace()` on the JVM: `Character.isWhitespace`
      or `Character.isSpaceChar`. */
  predicate IsWhitespace(c: char) {
    var n := c as int;
    || 0x09 <= n <= 0x0D
    || 0x1C <= n <= 0x20
    || n == 0xA0
    || n == 0x1680
    || 0x2000 <= n <= 0x200A
    || n == 0x2028 || n == 0x2029
    || n == 0x202F || n == 0x205F
    || n == 0x3000
  }

  /** Kotlin `String.isBlank()`: empty or whitespace only. */
  predicate IsBlank(s: string) {
    forall i :: 0 <= i < |s| ==> IsWhitespace(s[i])
  }

  /** Kotlin `List.indexOf`: index of the first element equal to `x`, or -1. */
  function IndexOf<T(==)>(xs: seq<T>, x: T): (r: int)
    ensures -1 <= r < |xs|
    ensures r == -1 <==> x !in xs
    ensures 0 <= r ==> xs[r] == x && x !in xs[..r]
  {
    if |xs| == 0 then -1
    else if xs[0] == x then 0
    else
      var k := IndexOf(xs[1..], x);
      assert xs[1..][..if k < 0 then 0 else k] == xs[1..if k < 0 then 1 else k + 1];
      if k < 0 then -1 else k + 1
  }

  /** Kotlin `List.getOrNull`. */
  function GetOrNull<T>(xs: seq<T>, i: int): (r: Option<T>)
    ensures r.Some? <==> 0 <= i < |xs|
    ensures r.Some? ==> r.value == xs[i]
  {
    if 0 <= i < |xs| then Some(xs[i]) else None
  }

  /** Kotlin `MutableList.remove(element)`: drops the first equal element,
      if any. */
  function RemoveFirst<T(==)>(xs: seq<T>, x: T): (r: seq<T>)
    ensures x !in xs ==> r == xs
    ensures x in xs ==> |r| == |xs| - 1
    ensures x in xs ==> r[..IndexOf(xs, x)] == xs[..IndexOf(xs, x)]
    ensures x in xs ==> r[IndexOf(xs, x)..] == xs[IndexOf(xs, x) + 1..]
    ensures multiset(r) == multiset(xs) - multiset{x}
  {
    var i := IndexOf(xs, x);
    if i < 0 then xs
    else
      assert xs == xs[..i] + [xs[i]] + xs[i + 1..];
      xs[..i] + xs[i + 1..]
  }

  /** Appending the head of `xs` and then its tail appends `xs`. */
  lemma ConsSplit<T>(a: seq<T>, xs: seq<T>)
    requires |xs| > 0
    ensures a + [xs[0]] + xs[1..] == a + xs
  {
    assert xs == [xs[0]] + xs[1..];
  }

  /** Appending to a non-empty sequence appends to its tail. */
  lemma ConsSnoc<T>(xs: seq<T>, y: T)
    requires |xs| > 0
    ensures xs + [y] == [xs[0]] + (xs[1..] + [y])
  {
    assert xs == [xs[0]] + xs[1..];
  }

  /** Kotlin `String.substringBefore(d)`: the text before the first `d`,
      or the whole string when there is no `d`. */
  function SubstringBefore(s: string, d: char): (r: string)
    ensures |r| <= |s| && r == s[..|r|]
    ensures d !in r
    ensures |r| < |s| ==> s[|r|] == d
  {
    if |s| == 0 || s[0] == d then ""
    else [s[0]] + SubstringBefore(s[1..], d)
  }
}
