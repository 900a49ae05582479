/** The value type of `Character` columns: parsing from text, rendering to
    text, and what its binary writer puts on the stream and reports. */
module CharacterType {
  import opened JavaLang
  import opened Outcomes
  import opened Values

  /** `Character.BYTES`. */
  const CharBytes: nat := 2

  /** `getType()`: the class of every value this type produces. */
  function GetType(): (r: ValueClass)
    ensures forall c: JChar :: ClassOf(VChar(c)) == Some(r)
  {
    CharacterClass
  }

  /** `parse(s)`: `s.charAt(0)`, which throws on the empty string. */
  function Parse(s: JString): (r: Result<JChar>)
    ensures r.Ok? <==> |s| > 0
    ensures r.Err? ==> r.error == IndexOutOfBounds(0)
  {
    if |s| == 0 then Err(IndexOutOfBounds(0)) else Ok(s[0])
  }

  /** `toString(value)`: `Character.toString(value)`. */
  function ToText(c: JChar): (r: JString)
    ensures |r| == 1
    ensures Parse(r) == Ok(c)
    ensures r == Text(VChar(c))
  {
    [c]
  }

  /** Rendering what `parse` read gives back the first character of the text. */
  lemma ParseThenRender(s: JString)
    requires |s| > 0
    ensures Parse(s).Ok? && ToText(Parse(s).value) == s[..1]
  {
  }

  /** `parse` looks at the first character only. */
  lemma ParseIgnoresRest(s: JString, rest: JString)
    requires |s| > 0
    ensures Parse(s + rest) == Parse(s)
  {
  }

  /** `write(Writer, value)`: the writer receives exactly `toString(value)`. */
  function WriteText(out: JString, c: JChar): (r: JString)
    ensures |r| == |out| + 1 && r[..|out|] == out
    ensures Parse(r[|out|..]) == Ok(c)
  {
    out + ToText(c)
  }

  /** `write(DataOutputStream, value)`: `writeChar` appends the code unit high
      byte first, and the method reports `Character.BYTES` bytes written. */
  function WriteBinary(out: seq<Byte>, c: JChar): (r: (seq<Byte>, int))
    ensures r.1 == CharBytes && |r.0| == |out| + r.1
    ensures r.0[..|out|] == out
    ensures r.0[|out|] as int * 0x100 + r.0[|out| + 1] as int == c
  {
    (out + [c / 0x100, c % 0x100], CharBytes)
  }
}
