/** Request-body values as the controllers see them after JSON parsing, and the
    two JavaScript operations the controllers apply to them: truthiness (the
    `||` and `&&` tests of updateAccountDetails) and `String.prototype.trim`
    (the blank check of registerUser). */
module Json {

  /** A field of `req.body`. `Undefined` is a field the client did not send.
      Numbers are kept as integers (see README, "Left out"). The JSON and
      extended urlencoded body parsers also deliver arrays and objects; an
      object is its members in order. */
  datatype JValue =
    | Undefined
    | Null
    | Bool(b: bool)
    | Num(n: int)
    | Str(s: string)
    | Arr(items: seq<JValue>)
    | Obj(members: seq<(string, JValue)>)

  /** JavaScript truthiness: `undefined`, `null`, `false`, `0` and `""` are
      falsy; every array and object, even an empty one, is truthy. */
  predicate Truthy(v: JValue) {
    match v
    case Undefined => false
    case Null => false
    case Bool(b) => b
    case Num(n) => n != 0
    case Str(s) => s != ""
    case Arr(_) => true
    case Obj(_) => true
  }

  /** The code points ECMAScript classifies as WhiteSpace or LineTerminator,
      which is exactly what `trim` strips from both ends. */
  predicate IsJsWhitespace(c: char) {
    || c == '\t' || c == '\n' || c == '\U{000B}' || c == '\U{000C}' || c == '\r'
    || c == ' ' || c == '\U{00A0}' || c == '\U{1680}'
    || ('\U{2000}' <= c <= '\U{200A}')
    || c == '\U{2028}' || c == '\U{2029}' || c == '\U{202F}' || c == '\U{205F}'
    || c == '\U{3000}' || c == '\U{FEFF}'
  }

  /** Where `trim` starts cutting from the left: the first index at or after
      `i` that does not hold whitespace, or `|s|`. */
  function SkipLeading(s: string, i: nat): (k: nat)
    requires i <= |s|
    ensures i <= k <= |s|
    ensures forall j :: i <= j < k ==> IsJsWhitespace(s[j])
    ensures k == |s| || !IsJsWhitespace(s[k])
    decreases |s| - i
  {
    if i == |s| || !IsJsWhitespace(s[i]) then i else SkipLeading(s, i + 1)
  }

  /** Where `trim` stops on the right: the end `e'` of `s[lo..e]` once
      trailing whitespace is dropped. */
  function SkipTrailing(s: string, lo: nat, e: nat): (e': nat)
    requires lo <= e <= |s|
    ensures lo <= e' <= e
    ensures forall j :: e' <= j < e ==> IsJsWhitespace(s[j])
    ensures e' == lo || !IsJsWhitespace(s[e' - 1])
    decreases e
  {
    if e == lo || !IsJsWhitespace(s[e - 1]) then e else SkipTrailing(s, lo, e - 1)
  }

  /** `s.trim()`: the slice of `s` between its leading and its trailing
      whitespace. */
  function Trim(s: string): (r: string)
    ensures r == [] || (!IsJsWhitespace(r[0]) && !IsJsWhitespace(r[|r| - 1]))
    ensures var k := SkipLeading(s, 0);
      && k + |r| <= |s| && r == s[k..k + |r|]
      && (forall i :: 0 <= i < k ==> IsJsWhitespace(s[i]))
      && (forall i :: k + |r| <= i < |s| ==> IsJsWhitespace(s[i]))
  {
    var k := SkipLeading(s, 0);
    s[k..SkipTrailing(s, k, |s|)]
  }

  /** A string trims to `""` exactly when every character of it is whitespace. */
  lemma TrimEmptyIff(s: string)
    ensures Trim(s) == "" <==> forall i :: 0 <= i < |s| ==> IsJsWhitespace(s[i])
  {
  }

  /** The outcome of `field?.trim() === ""` for one field. */
  datatype TrimTest =
    | Blank      // a string that trims to ""
    | NotBlank   // a non-blank string, or a nullish field (`?.` yields undefined)
    | Throws     // a number, boolean, array or object: `trim` is not a function, a TypeError

  function TestField(v: JValue): (t: TrimTest)
    ensures t == Blank <==> v.Str? && forall i :: 0 <= i < |v.s| ==> IsJsWhitespace(v.s[i])
    ensures t == Throws <==> v.Bool? || v.Num? || v.Arr? || v.Obj?
  {
    match v
    case Undefined => NotBlank
    case Null => NotBlank
    case Str(s) => TrimEmptyIff(s); if Trim(s) == "" then Blank else NotBlank
    case _ => Throws
  }

  /** `fields.some((field) => field?.trim() === "")`, including the TypeError a
      non-string, non-nullish field raises: the first field that is not
      `NotBlank` decides, and later fields are never looked at. */
  function SomeBlank(fields: seq<JValue>): (r: TrimTest)
    ensures r == NotBlank <==> forall k :: 0 <= k < |fields| ==> TestField(fields[k]) == NotBlank
    ensures r != NotBlank ==>
      exists k :: 0 <= k < |fields| && TestField(fields[k]) == r
        && forall j :: 0 <= j < k ==> TestField(fields[j]) == NotBlank
  {
    if fields == [] then NotBlank
    else if TestField(fields[0]) != NotBlank then TestField(fields[0])
    else
      var r := SomeBlank(fields[1..]);
      assert forall k :: 0 < k < |fields| ==> fields[k] == fields[1..][k - 1];
      r
  }

  /** `[a, b].some(...)`: `b` is tested only when `a` is a non-blank string or
      nullish. */
  lemma SomeBlankPair(a: JValue, b: JValue)
    ensures SomeBlank([a, b]) == if TestField(a) != NotBlank then TestField(a) else TestField(b)
  {
    assert [a, b][1..] == [b];
    assert [b][1..] == [];
  }
}
