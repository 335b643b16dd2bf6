/** `GuidExtensions.EncodeBase64String`: the ShortGuid encoding written
    as a loop over a 22-character buffer, with the two replacement
    characters chosen by the caller. */
module GuidExtensions {
  import opened Base64
  import opened ShortGuids

  /** What the loop writes for one character of the base64 text. */
  function Replaced(c: char, replaceForwardSlashWith: char, replacePlusWith: char): char {
    if c == '/' then replaceForwardSlashWith
    else if c == '+' then replacePlusWith
    else c
  }

  /** The 16 bytes are base64-encoded into a 24-character buffer whose last
      two characters are the "==" padding; only the first 22 are copied,
      with '/' and '+' replaced. The defaults are '_' and '-'. */
  method EncodeBase64String(guid: Guid, replaceForwardSlashWith: char, replacePlusWith: char)
    returns (r: string)
    ensures |r| == 22
    ensures |ToBase64String(guid)| == 24 && ToBase64String(guid)[22..] == "=="
    ensures forall i :: 0 <= i < 22 ==>
      r[i] == Replaced(ToBase64String(guid)[i], replaceForwardSlashWith, replacePlusWith)
    ensures replaceForwardSlashWith == '_' && replacePlusWith == '-' ==>
      r == Encode(guid) && forall i :: 0 <= i < 22 ==> r[i] !in "/+="
  {
    GuidBase64(guid);
    var encodedBytes := ToBase64String(guid);
    var chars := new char[22];
    for i := 0 to 22
      invariant forall j :: 0 <= j < i ==>
        chars[j] == Replaced(encodedBytes[j], replaceForwardSlashWith, replacePlusWith)
    {
      chars[i] := Replaced(encodedBytes[i], replaceForwardSlashWith, replacePlusWith);
    }
    r := chars[..];
    if replaceForwardSlashWith == '_' && replacePlusWith == '-' {
      EncodeIsUrlSafeBase64(guid);
      assert forall i :: 0 <= i < 22 ==> r[i] == Encode(guid)[i];
    }
  }
}
