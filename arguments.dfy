/** The private `Value` record both engines convert each argument into, and the
    conversion itself (`convert_arguments`, identical in tima-engine/src/engine.rs
    and src/engine.rs). */
module Arguments {
  import opened Wrappers
  import opened Numerals

  /** An argument after conversion: a numeral keeps its value and an empty text,
      anything else keeps its text and the value 0. */
  datatype Value = Value(aStr: string, aNum: U64)

  function ConvertArguments(arg: string): (v: Value)
    ensures v.aStr == "-m" <==> arg == "-m"
    ensures v.aStr == "-q" <==> arg == "-q"
    ensures v.aNum > 0 <==> PositiveNumeral(arg)
    ensures v.aNum == PositiveValue(arg)
    ensures v.aStr != "" ==> v.aNum == 0
  {
    match ParseU64(arg)
    case Some(n) => Value("", n)
    case None => Value(arg, 0)
  }
}
