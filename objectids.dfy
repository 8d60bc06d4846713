/** Document identifiers of the meme collection. A path parameter becomes an
    identifier by parsing it as 24 hexadecimal digits; printing an
    identifier gives its canonical lower-case form. */
module ObjectIds {
  import opened Outcomes
  import opened Text

  predicate IsHexDigit(c: char)
  {
    '0' <= c <= '9' || 'a' <= c <= 'f' || 'A' <= c <= 'F'
  }

  predicate IsLowerHexDigit(c: char)
  {
    '0' <= c <= '9' || 'a' <= c <= 'f'
  }

  predicate IsCanonical(hex: string)
  {
    |hex| == 24 && forall i :: 0 <= i < |hex| ==> IsLowerHexDigit(hex[i])
  }

  datatype Oid = Oid(hex: string)

  /** An identifier, held as the text `str()` prints for it. */
  type ObjectId = o: Oid | IsCanonical(o.hex) witness Oid("000000000000000000000000")

  /** The text of an identifier, as `str()` prints it. */
  function Str(o: ObjectId): string
  {
    o.hex
  }

  /** Parsing a path parameter: 24 hexadecimal digits in either letter case
      are accepted; anything else is refused (the driver raises). */
  function Parse(s: string): (r: Option<ObjectId>)
    ensures r.Some? <==> |s| == 24 && forall i :: 0 <= i < |s| ==> IsHexDigit(s[i])
    ensures r.Some? ==> Str(r.value) == Lower(s)
  {
    if |s| == 24 && forall i :: 0 <= i < |s| ==> IsHexDigit(s[i]) then
      assert IsCanonical(Lower(s)) by {
        forall i | 0 <= i < |s| ensures IsLowerHexDigit(Lower(s)[i]) {
          assert IsHexDigit(s[i]);
        }
      }
      Some(Oid(Lower(s)))
    else
      None
  }

  /** Printing an identifier and parsing the text gives it back. */
  lemma ParseStr(o: ObjectId)
    ensures Parse(Str(o)) == Some(o)
  {
    var s := Str(o);
    assert forall i :: 0 <= i < |s| ==> IsLowerHexDigit(s[i]);
    assert Lower(s) == s;
  }

  /** Parsing ignores letter case: spellings that differ only in case name
      the same identifier. */
  lemma ParseIgnoresCase(s: string, t: string)
    requires Lower(s) == Lower(t)
    ensures Parse(s) == Parse(t)
  {
    assert |s| == |Lower(s)| == |t|;
    forall i | 0 <= i < |s|
      ensures IsHexDigit(s[i]) == IsHexDigit(t[i])
    {
      assert LowerChar(s[i]) == Lower(s)[i] == Lower(t)[i] == LowerChar(t[i]);
    }
  }
}
