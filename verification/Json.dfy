/** JSON values, and what the models take for granted about the host's parser. */
module Json {
  import opened Wrappers
  import opened Text

  datatype Value =
    | Null
    | Bool(flag: bool)
    | Number(number: real)
    | Str(text: string)
    | Arr(items: seq<Value>)
    | Obj(fields: map<string, Value>)

  type Parser = string -> Option<Value>

  predicate Truthy(v: Value) {
    match v
    case Null => false
    case Bool(b) => b
    case Number(n) => n != 0.0
    case Str(s) => s != ""
    case Arr(_) => true
    case Obj(_) => true
  }

  /** A line break inside a text is white space or an error, and no JSON token starts with x. */
  ghost predicate RejectsLines(parse: Parser) {
    forall text :: Contains(text, "\nx") ==> parse(text).None?
  }

  /** A text that is an object begins at its first brace, and no shorter part from there parses. */
  ghost predicate Delimits(parse: Parser) {
    forall text: string, from: nat, to: nat ::
      (from <= to <= |text| && parse(text).Some? && parse(text).value.Obj? && IndexOf(text, "{", 0) == from && parse(text[from..to]).Some?) ==>
        parse(text[from..to]) == parse(text)
  }
}
