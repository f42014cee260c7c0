/** jsonb documents, and the parse state that pushJsonbValue builds one with. */
module JsonbValues {
  import opened Options

  datatype Json =
    | JNull
    | JBool(b: bool)
    | JNum(n: int)
    | JStr(s: string)
    | JArr(elems: seq<Json>)
    | JObj(members: map<string, Json>)

  datatype Token = BeginArray | EndArray | BeginObject | EndObject | Key(s: string) | Value(v: Json) | Elem(v: Json)

  /** An array or object still being built. */
  datatype Partial = PArr(elems: seq<Json>) | PObj(members: map<string, Json>, key: Option<string>)

  /** The containers being built, the innermost last; and the finished document. */
  datatype Parse = Parse(open: seq<Partial>, done: Option<Json>)

  /** Which tokens may come next. */
  predicate Legal(p: Parse, t: Token) {
    var n := |p.open|;
    && p.done.None?
    && match t
       case BeginArray => n == 0 || Takes(p.open[n - 1])
       case BeginObject => n == 0 || Takes(p.open[n - 1])
       case EndArray => n > 0 && p.open[n - 1].PArr? && (n == 1 || Takes(p.open[n - 2]))
       case EndObject => n > 0 && p.open[n - 1].PObj? && p.open[n - 1].key.None? && (n == 1 || Takes(p.open[n - 2]))
       case Key(_) => n > 0 && p.open[n - 1].PObj? && p.open[n - 1].key.None?
       case Value(_) => n > 0 && p.open[n - 1].PObj? && p.open[n - 1].key.Some?
       case Elem(_) => n > 0 && p.open[n - 1].PArr?
  }

  /** A container that is waiting for a value. */
  predicate Takes(c: Partial) { c.PArr? || c.key.Some? }

  function Add(c: Partial, v: Json): Partial
    requires Takes(c)
  {
    match c
    case PArr(elems) => PArr(elems + [v])
    case PObj(members, key) => PObj(members[key.value := v], None)
  }

  function Finished(c: Partial): Json {
    match c case PArr(elems) => JArr(elems) case PObj(members, _) => JObj(members)
  }

  function Push(p: Parse, t: Token): Parse
    requires Legal(p, t)
  {
    var n := |p.open|;
    match t
    case BeginArray => p.(open := p.open + [PArr([])])
    case BeginObject => p.(open := p.open + [PObj(map[], None)])
    case Key(s) => p.(open := p.open[n - 1 := p.open[n - 1].(key := Some(s))])
    case Value(v) => p.(open := p.open[n - 1 := Add(p.open[n - 1], v)])
    case Elem(v) => p.(open := p.open[n - 1 := Add(p.open[n - 1], v)])
    case _ =>
      var v := Finished(p.open[n - 1]);
      if n == 1 then Parse([], Some(v)) else Parse(p.open[..n - 2] + [Add(p.open[n - 2], v)], None)
  }
}
