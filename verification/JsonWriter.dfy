/** `FastWriter`. The text of a real number is a parameter: `snprintf` is outside this model. */
module JsonWriter {
  import opened Bytes
  import opened JsonValue
  import opened JsonMap
  import opened JsonNumber
  import opened JsonString
  import opened JsonToken

  type Show = real -> bytes

  /** `int size = value.size()`: sizes of 2^31 and more turn negative, and the loop does not run. */
  function PrintedLength(es: seq<Entry>): nat {
    if es == [] || !es[|es| - 1].key.Index? then 0
    else
      var n := ToInt32(ArraySize(es));
      if n < 0 then 0 else n
  }

  function NameOf(k: Key): bytes {
    if k.Name? then k.name else []
  }

  function FastText(v: Value, show: Show): bytes
    decreases v, 0
  {
    match v
    case Null => NULL_TEXT
    case Int(i) => IntText(i)
    case UInt(u) => Digits(u)
    case Real(r) => show(r)
    case String(s) => Quote(s)
    case Bool(b) => if b then TRUE_TEXT else FALSE_TEXT
    case Array(es) => [LBRACKET] + FastElements(es, 0, PrintedLength(es), show) + [RBRACKET]
    case Object(es) => [LBRACE] + FastMembers(es, 0, show) + [RBRACE]
  }

  /** What index `i` of the array prints as; a gap prints as null. */
  function FastElement(es: seq<Entry>, i: nat, show: Show): bytes
    decreases es, 0
  {
    var p := LowerBound(es, Index(i));
    if p < |es| && es[p].key == Index(i) then
      assert (es decreases to es[p]);
      FastText(es[p].value, show)
    else NULL_TEXT
  }

  function Separator(i: nat): bytes {
    if i > 0 then [COMMA] else []
  }

  /** Elements `i..n` with the commas before them. */
  function FastElements(es: seq<Entry>, i: nat, n: nat, show: Show): bytes
    decreases es, 1, n - i
  {
    if i >= n then [] else Separator(i) + FastElement(es, i, show) + FastElements(es, i + 1, n, show)
  }

  function FastMember(e: Entry, show: Show): bytes
    decreases e, 0
  {
    Quote(NameOf(e.key)) + [COLON] + FastText(e.value, show)
  }

  function FastMembers(es: seq<Entry>, i: nat, show: Show): bytes
    decreases es, 1, |es| - i
  {
    if i >= |es| then []
    else
      assert (es decreases to es[i]);
      Separator(i) + FastMember(es[i], show) + FastMembers(es, i + 1, show)
  }

  class FastWriter {
    var document: bytes
    const show: Show

    constructor (show: Show)
      ensures document == [] && this.show == show
    {
      document := [];
      this.show := show;
    }

    method Write(root: Value) returns (text: bytes)
      requires WellFormed(root)
      modifies this
      ensures text == document == FastText(root, show) + [NEWLINE]
    {
      document := [];
      WriteValue(root);
      document := document + [NEWLINE];
      return document;
    }

    method WriteValue(value: Value)
      requires WellFormed(value)
      modifies this
      ensures document == old(document) + FastText(value, show)
      decreases value
    {
      match value
      case Null => document := document + NULL_TEXT;
      case Int(i) =>
        var t := IntToString(i);
        document := document + t;
      case UInt(u) =>
        var t := UIntToText(u);
        document := document + t;
      case Real(r) => document := document + show(r);
      case String(s) =>
        var t := ValueToQuotedStringN(s);
        document := document + t;
      case Bool(b) => document := document + if b then TRUE_TEXT else FALSE_TEXT;
      case Array(es) => WriteArray(es);
      case Object(es) => WriteObject(es);
    }

    method WriteArray(es: seq<Entry>)
      requires WellFormed(Array(es))
      modifies this
      ensures document == old(document) + FastText(Array(es), show)
      decreases es, 1
    {
      hide FastElement;
      document := document + [LBRACKET];
      var size := if es == [] then 0 else ToInt32(ArraySize(es));
      ghost var n, head, written := PrintedLength(es), document, [];
      assert n == if size < 0 then 0 else size;
      var index := 0;
      while index < size
        invariant 0 <= index <= n && document == head + written
        invariant written + FastElements(es, index, n, show) == FastElements(es, 0, n, show)
        decreases size - index
      {
        ghost var piece := Separator(index) + FastElement(es, index, show);
        if index > 0 {
          document := document + [COMMA];
        }
        WriteElement(es, index);
        assert document == head + (written + piece);
        Assoc(written, piece, FastElements(es, index + 1, n, show));
        written := written + piece;
        index := index + 1;
      }
      document := document + [RBRACKET];
      assert document == old(document) + ([LBRACKET] + written + [RBRACKET]);
    }

    /** `writeValue(value[index])` */
    method WriteElement(es: seq<Entry>, index: nat)
      requires WellFormed(Array(es))
      modifies this
      ensures document == old(document) + FastElement(es, index, show)
      decreases es, 0
    {
      var p := LowerBound(es, Index(index));
      if p < |es| && es[p].key == Index(index) {
        assert (es decreases to es[p]);
        WriteValue(es[p].value);
      } else {
        document := document + NULL_TEXT;
      }
    }

    method WriteObject(es: seq<Entry>)
      requires WellFormed(Object(es))
      modifies this
      ensures document == old(document) + FastText(Object(es), show)
      decreases es, 1
    {
      hide FastMember;
      document := document + [LBRACE];
      ghost var head, written := document, [];
      for i := 0 to |es|
        invariant document == head + written
        invariant written + FastMembers(es, i, show) == FastMembers(es, 0, show)
      {
        ghost var piece := Separator(i) + FastMember(es[i], show);
        if i != 0 {
          document := document + [COMMA];
        }
        assert (es decreases to es[i]);
        WriteMember(es[i]);
        assert document == head + (written + piece);
        Assoc(written, piece, FastMembers(es, i + 1, show));
        written := written + piece;
      }
      document := document + [RBRACE];
      assert document == old(document) + ([LBRACE] + written + [RBRACE]);
    }

    method WriteMember(e: Entry)
      requires e.key.Name? && WellFormed(e.value)
      modifies this
      ensures document == old(document) + FastMember(e, show)
      decreases e
    {
      var quoted := ValueToQuotedStringN(e.key.name);
      document := document + quoted;
      document := document + [COLON];
      WriteValue(e.value);
    }
  }

  lemma Assoc(a: bytes, b: bytes, c: bytes)
    ensures (a + b) + c == a + (b + c)
  {
  }
}
