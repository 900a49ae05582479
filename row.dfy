/** One row of a data frame: a header and the array of cell values, with the
    typed getters and the tab-separated rendering of `toString`. */
module Row {
  import opened JavaLang
  import opened Outcomes
  import opened Values
  import opened Header

  /** The texts of the cells, in order. */
  function Texts(vs: seq<Value>): (r: seq<JString>)
    ensures |r| == |vs|
    ensures forall k :: 0 <= k < |vs| ==> r[k] == Text(vs[k])
  {
    if vs == [] then [] else Texts(vs[..|vs| - 1]) + [Text(vs[|vs| - 1])]
  }

  /** The fields joined with one tab between neighbours. */
  function JoinTab(ts: seq<JString>): JString {
    if |ts| == 0 then []
    else if |ts| == 1 then ts[0]
    else JoinTab(ts[..|ts| - 1]) + [Tab] + ts[|ts| - 1]
  }

  /** The text cut at every tab: the fields a reader of the rendering sees. */
  function SplitTab(s: JString): (r: seq<JString>)
    ensures |r| >= 1
  {
    if |s| == 0 then [[]]
    else
      var init := SplitTab(s[..|s| - 1]);
      if s[|s| - 1] == Tab then init + [[]]
      else init[..|init| - 1] + [init[|init| - 1] + [s[|s| - 1]]]
  }

  lemma {:induction false} SplitWithoutTab(t: JString)
    requires Tab !in t
    ensures SplitTab(t) == [t]
  {
    if |t| > 0 {
      SplitWithoutTab(t[..|t| - 1]);
      assert t[..|t| - 1] + [t[|t| - 1]] == t;
    }
  }

  lemma {:induction false} SplitAfterTab(p: JString, t: JString)
    requires Tab !in t
    ensures SplitTab(p + [Tab] + t) == SplitTab(p) + [t]
  {
    var s := p + [Tab] + t;
    if |t| == 0 {
      assert s[..|s| - 1] == p;
    } else {
      var t' := t[..|t| - 1];
      assert s[..|s| - 1] == p + [Tab] + t';
      SplitAfterTab(p, t');
      assert t' + [t[|t| - 1]] == t;
    }
  }

  /** Splitting the rendering of one or more tab-free fields gives the fields back. */
  lemma {:induction false} SplitJoin(ts: seq<JString>)
    requires |ts| >= 1
    requires forall k :: 0 <= k < |ts| ==> Tab !in ts[k]
    ensures SplitTab(JoinTab(ts)) == ts
  {
    if |ts| == 1 {
      SplitWithoutTab(ts[0]);
    } else {
      var init := ts[..|ts| - 1];
      SplitJoin(init);
      SplitAfterTab(JoinTab(init), ts[|ts| - 1]);
      assert init + [ts[|ts| - 1]] == ts;
    }
  }

  /** A cell whose text has no tab: not a string holding a tab, nor the tab character. */
  predicate TabFree(v: Value) {
    !(v.VStr? && Tab in v.s) && v != VChar(Tab)
  }

  /** A non-empty row of tab-free cells can be read back field by field from
      its rendering: the rendering has one field per cell, each the cell's text. */
  lemma RenderedRowSplits(vs: seq<Value>)
    requires |vs| >= 1
    requires forall k :: 0 <= k < |vs| ==> TabFree(vs[k])
    ensures SplitTab(JoinTab(Texts(vs))) == Texts(vs)
    ensures |SplitTab(JoinTab(Texts(vs)))| == |vs|
  {
    SplitJoin(Texts(vs));
  }

  /** An empty row renders as the empty text, which reads back as one empty
      field: the rendering does not tell an empty row from a row holding "". */
  lemma EmptyRowRendering()
    ensures JoinTab(Texts([])) == JoinTab(Texts([VStr([])]))
    ensures SplitTab(JoinTab(Texts([]))) == [[]]
  {
  }

  class DataRow {
    const header: DataFrameHeader
    /** The cells, shared with the caller (not a copy). */
    const values: array<Value>

    /** `DataRow(header, values)`. */
    constructor (header: DataFrameHeader, values: array<Value>)
      ensures this.header == header && this.values == values
    {
      this.header := header;
      this.values := values;
    }

    /** `get(index)`: the array access, which throws outside the array. */
    function Get(index: int): (r: Result<Value>)
      reads values
      ensures r.Ok? <==> 0 <= index < values.Length
      ensures r.Ok? ==> r.value == values[..][index]
      ensures r.Err? ==> r.error == IndexOutOfBounds(index)
    {
      if 0 <= index < values.Length then Ok(values[index]) else Err(IndexOutOfBounds(index))
    }

    /** `get(headerName)`: the cell in the header's column of that name. */
    function GetNamed(name: Name): (r: Result<Value>)
      reads header, values
      ensures header.GetIndex(name) == -1 <==> r == Err(HeaderNameNotFound(name))
      ensures Valid(header.State()) && name in header.headers ==>
                var i := header.GetIndex(name);
                header.headers[i] == name && r == Get(i)
    {
      var index := header.GetIndex(name);
      if index == -1 then Err(HeaderNameNotFound(name)) else Get(index)
    }

    /** `size()`: the length of the array, whatever the header says. */
    function Size(): (r: nat)
      reads values
      ensures r == |values[..]|
    {
      values.Length
    }

    /** `getString(index)`: the text of a non-null cell. */
    function GetString(index: int): (r: Result<JString>)
      reads values
      ensures r.Ok? <==> Get(index).Ok? && Get(index).value != VNull
      ensures r.Ok? ==> r.value == Text(values[index])
      ensures r.Ok? && r.value == NullText ==> values[index] == VStr(NullText)
      ensures Get(index).Err? ==> r == Err(IndexOutOfBounds(index))
      ensures Get(index) == Ok(VNull) ==> r == Err(NoStringValue(index))
    {
      match Get(index)
      case Err(e) => Err(e)
      case Ok(v) => if v != VNull then Ok(Text(v)) else Err(NoStringValue(index))
    }

    /** `getBoolean(index)`: the value of a `Boolean` cell. */
    function GetBoolean(index: int): (r: Result<bool>)
      reads values
      ensures forall b :: r == Ok(b) <==> Get(index) == Ok(VBool(b))
      ensures Get(index).Err? ==> r == Err(IndexOutOfBounds(index))
      ensures Get(index).Ok? && !Get(index).value.VBool? ==>
                r == Err(NoBooleanValue(index, Text(Get(index).value)))
    {
      match Get(index)
      case Err(e) => Err(e)
      case Ok(v) => if v.VBool? then Ok(v.b) else Err(NoBooleanValue(index, Text(v)))
    }

    /** `getInteger(index)`: `intValue()` of a `Number` cell. */
    function GetInteger(index: int): (r: Result<Int32>)
      reads values
      ensures r.Ok? <==> Get(index).Ok? && IsNumber(Get(index).value)
      ensures r.Ok? && values[index].VInt? ==> r.value == values[index].i
      ensures r.Ok? && values[index].VLong? ==> (r.value - values[index].l) % 0x1_0000_0000 == 0
      ensures Get(index).Err? ==> r == Err(IndexOutOfBounds(index))
      ensures Get(index).Ok? && !IsNumber(Get(index).value) ==>
                r == Err(NoIntValue(AtIndex(index), Text(Get(index).value)))
    {
      match Get(index)
      case Err(e) => Err(e)
      case Ok(v) =>
        match IntValue(v)
        case Some(i) => Ok(i)
        case None => Err(NoIntValue(AtIndex(index), Text(v)))
    }

    /** `getString(name)`: by the header's index, with no check for a missing
        name, so a missing name reads position -1. */
    function GetStringNamed(name: Name): (r: Result<JString>)
      reads header, values
      ensures header.GetIndex(name) == -1 ==> r == Err(IndexOutOfBounds(-1))
      ensures r.Ok? <==> GetNamed(name).Ok? && GetNamed(name).value != VNull
      ensures r.Ok? ==> header.GetIndex(name) != -1 && r == GetString(header.GetIndex(name))
    {
      GetString(header.GetIndex(name))
    }

    /** `getBoolean(name)`: by the header's index, with no check for a missing name. */
    function GetBooleanNamed(name: Name): (r: Result<bool>)
      reads header, values
      ensures header.GetIndex(name) == -1 ==> r == Err(IndexOutOfBounds(-1))
      ensures forall b :: r == Ok(b) <==> GetNamed(name) == Ok(VBool(b))
    {
      GetBoolean(header.GetIndex(name))
    }

    /** `getInteger(headerName)`: a missing name is reported as such. */
    function GetIntegerNamed(name: Name): (r: Result<Int32>)
      reads header, values
      ensures header.GetIndex(name) == -1 ==> r == Err(HeaderNameNotFound(name))
      ensures r.Ok? <==> GetNamed(name).Ok? && IsNumber(GetNamed(name).value)
      ensures r.Ok? ==> r.value == GetInteger(header.GetIndex(name)).value
      ensures GetNamed(name).Ok? && !IsNumber(GetNamed(name).value) ==>
                r == Err(NoIntValue(Named(name), Text(GetNamed(name).value)))
    {
      match GetNamed(name)
      case Err(e) => Err(e)
      case Ok(v) =>
        match IntValue(v)
        case Some(i) => Ok(i)
        case None => Err(NoIntValue(Named(name), Text(v)))
    }

    /** `toString()`: the texts of the cells, a tab after every cell but the last. */
    method ToString() returns (r: JString)
      ensures r == JoinTab(Texts(values[..]))
    {
      r := [];
      var i := 0;
      while i < values.Length
        invariant 0 <= i <= values.Length
        invariant r == JoinTab(Texts(values[..i])) + (if 0 < i < values.Length then [Tab] else [])
      {
        assert values[..i + 1][..i] == values[..i];
        r := r + Text(values[i]);
        if i < values.Length - 1 {
          r := r + [Tab];
        }
        i := i + 1;
      }
      assert values[..i] == values[..];
    }
  }
}
