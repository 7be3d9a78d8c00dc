/** Removal of the byte order mark in front of the file's text before it is
    parsed. */
module ByteOrderMark {

  /** U+FEFF, the byte order mark as one UTF-16 code unit. */
  const Bom: char := '\U{FEFF}'

  /** `removeBOM`: drops one leading byte order mark. The result is the text
      or the text without its first code unit, and it differs from the text
      exactly when the text starts with the mark; the empty text is returned
      as it is. */
  function RemoveBom(text: string): (r: string)
    ensures |text| - 1 <= |r| <= |text|
    ensures r == text[|text| - |r|..]
    ensures r != text <==> |text| > 0 && text[0] == Bom
  {
    if |text| > 0 && text[0] == Bom then text[1..] else text
  }

  /** Exactly one mark goes: a second mark right after the first stays. */
  lemma {:induction false} RemoveBomStripsOne(text: string)
    ensures RemoveBom([Bom] + text) == text
    ensures RemoveBom([Bom, Bom] + text) == [Bom] + text
  {
    assert ([Bom] + text)[1..] == text;
    assert ([Bom, Bom] + text)[1..] == [Bom] + text;
  }
}
