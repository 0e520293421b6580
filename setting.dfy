/**
 * A typed setting (`se.exuvo.settings.Setting`): a name, a value and one of
 * four value types. Every read and write is checked against the type, and a
 * setting is stored as its one-letter type code and the text of its value.
 */
module Settings {
  import opened Wrappers
  import opened Text
  import JavaMath

  /** `Setting.Type`, in declaration order. */
  datatype Type = STRING | BOOLEAN | INTEGER | FLOAT

  /** `Type.values()`: the types in declaration order. */
  const TYPES: seq<Type> := [STRING, BOOLEAN, INTEGER, FLOAT]

  /** `getCode()`: the letter a type is stored under. */
  function Code(t: Type): char
  {
    match t
    case STRING => 's'
    case BOOLEAN => 'b'
    case INTEGER => 'i'
    case FLOAT => 'f'
  }

  /**
   * `Type.valueOf(char)`: the declared types are searched in order for the
   * code; a character no type has is an `IllegalArgumentException`.
   */
  method ValueOf(c: char) returns (r: Result<Type>)
    ensures r.Ok? ==> Code(r.value) == c
    ensures r.Err? ==> r.error == IllegalArgument && forall t: Type :: Code(t) != c
  {
    var i := 0;
    while i < |TYPES|
      invariant 0 <= i <= |TYPES|
      invariant forall k :: 0 <= k < i ==> Code(TYPES[k]) != c
    {
      if Code(TYPES[i]) == c {
        return Ok(TYPES[i]);
      }
      i := i + 1;
    }
    forall t: Type
      ensures Code(t) != c
    {
      var k := if t == STRING then 0 else if t == BOOLEAN then 1 else if t == INTEGER then 2 else 3;
      assert TYPES[k] == t;
    }
    return Err(IllegalArgument);
  }

  /** The boxed value a setting holds; `Null` is a null reference. Floats are reals. */
  datatype Value = Null | Str(s: string) | Bol(b: bool) | Int(i: int) | Flt(f: real)

  /** `v` may be held by a setting of type `t`: null, or a value of that type (an `int` for INTEGER). */
  predicate OfType(v: Value, t: Type)
  {
    match v
    case Null => true
    case Str(_) => t == STRING
    case Bol(_) => t == BOOLEAN
    case Int(i) => t == INTEGER && JavaMath.IsInt(i)
    case Flt(_) => t == FLOAT
  }

  /** An ASCII letter in lower case; other characters are left as they are. */
  function Lower(c: char): char
  {
    if 'A' <= c <= 'Z' then (c as int + 32) as char else c
  }

  /** `Boolean.parseBoolean`: true exactly for "true" in any letter case; null is false. */
  function ParseBoolean(s: Option<string>): (b: bool)
  {
    s.Some? && |s.value| == 4 && forall k :: 0 <= k < 4 ==> Lower(s.value[k]) == "true"[k]
  }

  /** `Boolean.toString`. */
  function BooleanText(b: bool): string
  {
    if b then "true" else "false"
  }

  /**
   * The value the constructor `Setting(name, String value, Type type)` stores:
   * the string itself, `parseBoolean`, `Integer.parseInt` (a null or malformed
   * string is a `NumberFormatException`) or `Float.parseFloat`, which is
   * `parseFloat` here and is a `NullPointerException` on null.
   */
  function ParseValue(value: Option<string>, t: Type, parseFloat: string -> Result<real>): (r: Result<Value>)
    ensures r.Ok? ==> OfType(r.value, t)
    ensures t == STRING ==> r == Ok(if value.Some? then Str(value.value) else Null)
    ensures t == BOOLEAN ==> r == Ok(Bol(ParseBoolean(value)))
    ensures t == INTEGER ==> (r.Err? <==> value.None? || ParseInt(value.value).None?)
    ensures t == INTEGER && r.Err? ==> r.error == NumberFormat
    ensures t == FLOAT ==> (r.Err? <==> value.None? || parseFloat(value.value).Err?)
    ensures t == FLOAT && r.Err? ==> r.error == (if value.None? then NullPointer else parseFloat(value.value).error)
  {
    match t
    case STRING => Ok(if value.Some? then Str(value.value) else Null)
    case BOOLEAN => Ok(Bol(ParseBoolean(value)))
    case INTEGER =>
      if value.None? then Err(NumberFormat)
      else (match ParseInt(value.value)
        case None => Err(NumberFormat)
        case Some(i) => Ok(Int(i)))
    case FLOAT =>
      if value.None? then Err(NullPointer)
      else (match parseFloat(value.value)
        case Err(e) => Err(e)
        case Ok(f) => Ok(Flt(f)))
  }

  /**
   * `getValue()`: "null" for a null value, otherwise the value's text;
   * `Float.toString` is `floatText` here.
   */
  function ValueText(v: Value, floatText: real -> string): string
  {
    match v
    case Null => "null"
    case Str(s) => s
    case Bol(b) => BooleanText(b)
    case Int(i) => IntToString(i)
    case Flt(f) => floatText(f)
  }

  /**
   * A setting written as its value's text reads back as the same value
   * through the parsing constructor, provided `Float.parseFloat` reads back
   * what `Float.toString` wrote. A null value does not: its text "null" comes
   * back as that string, or fails to parse.
   */
  lemma ValueTextRoundTrip(v: Value, t: Type, floatText: real -> string, parseFloat: string -> Result<real>)
    requires OfType(v, t) && !v.Null?
    requires v.Flt? ==> parseFloat(floatText(v.f)) == Ok(v.f)
    ensures ParseValue(Some(ValueText(v, floatText)), t, parseFloat) == Ok(v)
  {
    if v.Int? {
      ParseSignedToString(v.i, JavaMath.INT_MIN, JavaMath.INT_MAX);
    }
    if v.Bol? && v.b {
      assert ParseBoolean(Some("true"));
    }
  }

  /** `ValueTextRoundTrip` for every `Float.parseFloat` that reads back what `floatText` wrote. */
  lemma ValueTextRoundTrips(v: Value, t: Type, floatText: real -> string)
    requires OfType(v, t)
    ensures forall parseFloat: string -> Result<real> {:trigger ParseValue(Some(ValueText(v, floatText)), t, parseFloat)} ::
      !v.Null? && (v.Flt? ==> parseFloat(floatText(v.f)) == Ok(v.f)) ==>
      ParseValue(Some(ValueText(v, floatText)), t, parseFloat) == Ok(v)
  {
    forall parseFloat: string -> Result<real> | !v.Null? && (v.Flt? ==> parseFloat(floatText(v.f)) == Ok(v.f))
      ensures ParseValue(Some(ValueText(v, floatText)), t, parseFloat) == Ok(v)
    {
      ValueTextRoundTrip(v, t, floatText, parseFloat);
    }
  }

  class Setting {
    const name: string
    var value: Value
    /** The Java field `type`, assigned once by each constructor. */
    const kind: Type

    /** The value is null or of the setting's type. */
    ghost predicate Valid()
      reads this
    {
      OfType(value, kind)
    }

    /** `Setting(name, String value)`. */
    constructor FromString(name: string, value: Option<string>)
      ensures this.name == name && kind == STRING && Valid()
      ensures this.value == if value.Some? then Str(value.value) else Null
    {
      this.name := name;
      this.value := if value.Some? then Str(value.value) else Null;
      kind := STRING;
    }

    /** `Setting(name, Boolean value)`. */
    constructor FromBoolean(name: string, value: Option<bool>)
      ensures this.name == name && kind == BOOLEAN && Valid()
      ensures this.value == if value.Some? then Bol(value.value) else Null
    {
      this.name := name;
      this.value := if value.Some? then Bol(value.value) else Null;
      kind := BOOLEAN;
    }

    /** `Setting(name, Integer value)`. */
    constructor FromInteger(name: string, value: Option<int>)
      requires value.Some? ==> JavaMath.IsInt(value.value)
      ensures this.name == name && kind == INTEGER && Valid()
      ensures this.value == if value.Some? then Int(value.value) else Null
    {
      this.name := name;
      this.value := if value.Some? then Int(value.value) else Null;
      kind := INTEGER;
    }

    /** `Setting(name, Float value)`. */
    constructor FromFloat(name: string, value: Option<real>)
      ensures this.name == name && kind == FLOAT && Valid()
      ensures this.value == if value.Some? then Flt(value.value) else Null
    {
      this.name := name;
      this.value := if value.Some? then Flt(value.value) else Null;
      kind := FLOAT;
    }

    /** A setting holding a value already parsed for its type. */
    constructor Parsed(name: string, value: Value, kind: Type)
      requires OfType(value, kind)
      ensures this.name == name && this.value == value && this.kind == kind && Valid()
    {
      this.name := name;
      this.value := value;
      this.kind := kind;
    }

    /** `getStr()`: the string of a STRING setting; any other type is an `InvalidTypeException`. */
    function GetStr(): (r: Result<Option<string>>)
      reads this
      requires Valid()
      ensures r.Ok? <==> kind == STRING
      ensures r.Err? ==> r.error == InvalidType
    {
      if kind == STRING then Ok(if value.Str? then Some(value.s) else None) else Err(InvalidType)
    }

    /** `getBol()`. */
    function GetBol(): (r: Result<Option<bool>>)
      reads this
      requires Valid()
      ensures r.Ok? <==> kind == BOOLEAN
      ensures r.Err? ==> r.error == InvalidType
    {
      if kind == BOOLEAN then Ok(if value.Bol? then Some(value.b) else None) else Err(InvalidType)
    }

    /** `getInt()`: an `int` whenever present. */
    function GetInt(): (r: Result<Option<int>>)
      reads this
      requires Valid()
      ensures r.Ok? <==> kind == INTEGER
      ensures r.Err? ==> r.error == InvalidType
      ensures r.Ok? && r.value.Some? ==> JavaMath.IsInt(r.value.value)
    {
      if kind == INTEGER then Ok(if value.Int? then Some(value.i) else None) else Err(InvalidType)
    }

    /** `getFloat()`. */
    function GetFloat(): (r: Result<Option<real>>)
      reads this
      requires Valid()
      ensures r.Ok? <==> kind == FLOAT
      ensures r.Err? ==> r.error == InvalidType
    {
      if kind == FLOAT then Ok(if value.Flt? then Some(value.f) else None) else Err(InvalidType)
    }

    /**
     * `getValue()`: "null" for a null value; otherwise the text that the
     * parsing constructor reads back as the same value.
     */
    function GetValue(floatText: real -> string): (r: string)
      reads this
      requires Valid()
      ensures value.Null? ==> r == "null"
      ensures kind == STRING && value.Str? ==> r == value.s
      ensures forall parseFloat: string -> Result<real> {:trigger ParseValue(Some(r), kind, parseFloat)} ::
        !value.Null? && (value.Flt? ==> parseFloat(floatText(value.f)) == Ok(value.f)) ==>
        ParseValue(Some(r), kind, parseFloat) == Ok(value)
    {
      ValueTextRoundTrips(value, kind, floatText);
      ValueText(value, floatText)
    }

    /** `setStr(value)`: stored on a STRING setting; any other type is an `InvalidTypeException` and nothing changes. */
    method SetStr(v: Option<string>) returns (r: Outcome)
      requires Valid()
      modifies this
      ensures Valid() && (r.Pass? <==> kind == STRING)
      ensures r.Pass? ==> value == (if v.Some? then Str(v.value) else Null) && GetStr() == Ok(v)
      ensures r.Fail? ==> r.error == InvalidType && value == old(value)
    {
      if kind == STRING {
        value := if v.Some? then Str(v.value) else Null;
        r := Pass;
      } else {
        r := Fail(InvalidType);
      }
    }

    /** `setBol(value)`. */
    method SetBol(v: Option<bool>) returns (r: Outcome)
      requires Valid()
      modifies this
      ensures Valid() && (r.Pass? <==> kind == BOOLEAN)
      ensures r.Pass? ==> value == (if v.Some? then Bol(v.value) else Null) && GetBol() == Ok(v)
      ensures r.Fail? ==> r.error == InvalidType && value == old(value)
    {
      if kind == BOOLEAN {
        value := if v.Some? then Bol(v.value) else Null;
        r := Pass;
      } else {
        r := Fail(InvalidType);
      }
    }

    /** `setInt(value)`. */
    method SetInt(v: Option<int>) returns (r: Outcome)
      requires Valid() && (v.Some? ==> JavaMath.IsInt(v.value))
      modifies this
      ensures Valid() && (r.Pass? <==> kind == INTEGER)
      ensures r.Pass? ==> value == (if v.Some? then Int(v.value) else Null) && GetInt() == Ok(v)
      ensures r.Fail? ==> r.error == InvalidType && value == old(value)
    {
      if kind == INTEGER {
        value := if v.Some? then Int(v.value) else Null;
        r := Pass;
      } else {
        r := Fail(InvalidType);
      }
    }

    /** `setFloat(value)`. */
    method SetFloat(v: Option<real>) returns (r: Outcome)
      requires Valid()
      modifies this
      ensures Valid() && (r.Pass? <==> kind == FLOAT)
      ensures r.Pass? ==> value == (if v.Some? then Flt(v.value) else Null) && GetFloat() == Ok(v)
      ensures r.Fail? ==> r.error == InvalidType && value == old(value)
    {
      if kind == FLOAT {
        value := if v.Some? then Flt(v.value) else Null;
        r := Pass;
      } else {
        r := Fail(InvalidType);
      }
    }
  }

  /**
   * `Setting(name, String value, Type type)`: the text is parsed for the
   * type, and a parse failure is the exception the parser throws.
   */
  method Parse(name: string, value: Option<string>, t: Type, parseFloat: string -> Result<real>)
    returns (r: Result<Setting>)
    ensures r.Err? <==> ParseValue(value, t, parseFloat).Err?
    ensures r.Err? ==> r.error == ParseValue(value, t, parseFloat).error
    ensures r.Ok? ==> fresh(r.value) && r.value.name == name && r.value.kind == t && r.value.Valid()
    ensures r.Ok? ==> r.value.value == ParseValue(value, t, parseFloat).value
  {
    var v := ParseValue(value, t, parseFloat);
    if v.Err? {
      return Err(v.error);
    }
    var s := new Setting.Parsed(name, v.value, t);
    return Ok(s);
  }
}
