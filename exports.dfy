/** Model of the `module.exports` map of schema.js: each validator filed under
    its column's key. A cell the caller does not have at all (`undefined`) is
    `None` here; every validator lets it through, as it does the empty value. */
module SchemaExports {
  import opened Text
  import Schema

  datatype Column = LRB | Time | Gtype | GSRel | Key | Utts

  /** The key the column's validator is exported under; it is also the column
      name the validator writes into its diagnostics. The keys are distinct,
      so looking a key up finds its own column again. */
  function Name(c: Column): (r: string)
    ensures Lookup(r) == Some(c)
  {
    match c
    case LRB => "LRB"
    case Time => "Time"
    case Gtype => "Gtype"
    case GSRel => "GSRel"
    case Key => "Key"
    case Utts => "Utts"
  }

  /** Looking a validator up among the exported object's own keys. Inherited
      members such as `toString` are not modelled: every other name finds none. */
  function Lookup(name: string): (r: Option<Column>)
  {
    if name == "LRB" then Some(LRB)
    else if name == "Time" then Some(Time)
    else if name == "Gtype" then Some(Gtype)
    else if name == "GSRel" then Some(GSRel)
    else if name == "Key" then Some(Key)
    else if name == "Utts" then Some(Utts)
    else None
  }

  /** A name finds a column exactly when it is that column's key. */
  lemma LookupIff(name: string, c: Column)
    ensures Lookup(name) == Some(c) <==> Name(c) == name
  {
  }

  /** `schema[Name(c)](v)`. An absent or empty cell passes every column. */
  function Check(c: Column, v: Option<string>): (r: Option<string>)
    ensures v == None || v == Some("") ==> r == None
  {
    match v
    case None => None
    case Some(s) =>
      match c
      case LRB => Schema.Lrb(s)
      case Time => Schema.Time(s)
      case Gtype => Schema.Gtype(s)
      case GSRel => Schema.Gsrel(s)
      case Key => Schema.Key(s)
      case Utts => Schema.Utts(s)
  }

  /** Every diagnostic starts with the column's key and the value between
      backticks. */
  lemma CheckDiagnostic(c: Column, s: string)
    requires Check(c, Some(s)) != None
    ensures Name(c) + " = `" + s + "` " <= Check(c, Some(s)).value
  {
  }

  /** The validators with the three defects corrected (`time`'s hours, the
      unescaped dots of `gsrel`, the runs of `utts`); the other columns are
      unchanged. The corrections only refuse more: whatever they pass, the
      source passes. */
  function CheckIntended(c: Column, v: Option<string>): (r: Option<string>)
    ensures r == None ==> Check(c, v) == None
  {
    match v
    case None => None
    case Some(s) =>
      match c
      case Time => Schema.TimeIntended(s)
      case GSRel => Schema.GsrelIntended(s)
      case Utts => Schema.UttsIntended(s)
      case _ => Check(c, v)
  }
}
