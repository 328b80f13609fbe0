/** The check on the names of offered files: UTF-8, one path component, nothing invisible. */
module FileName {
  import opened Utf8
  import opened Wire

  const MAX_FILE_NAME := 255

  datatype NameError = Empty | TooLong | NotUtf8 | PathSeparator | ControlCharacter | PathTraversal

  predicate IsSeparator(c: Scalar) { c == '/' as int || c == '\\' as int }

  predicate IsControl(c: Scalar) { c < 0x20 || 0x7F <= c < 0xA0 }

  const DOT: seq<Scalar> := ['.' as int]

  /** Why a name is refused, None if it is accepted. */
  function Refused(name: seq<byte>): Option<NameError> {
    if name == [] then Some(Empty)
    else if |name| > MAX_FILE_NAME then Some(TooLong)
    else
      var decoded := Decode(name);
      if decoded.None? then Some(NotUtf8)
      else if exists i :: 0 <= i < |decoded.value| && IsSeparator(decoded.value[i]) then Some(PathSeparator)
      else if exists i :: 0 <= i < |decoded.value| && IsControl(decoded.value[i]) then Some(ControlCharacter)
      else if decoded.value == DOT + DOT || decoded.value == DOT then Some(PathTraversal)
      else None
  }

  /** One path component that shows what it is. */
  ghost predicate Plain(s: seq<Scalar>) {
    && s != [] && s != [0x2E] && s != [0x2E, 0x2E]
    && forall i :: 0 <= i < |s| ==> 0x20 <= s[i] != 0x2F && s[i] != 0x5C && !(0x7F <= s[i] <= 0x9F)
  }

  /** The names accepted are exactly the UTF-8 forms, up to 255 bytes, of plain path components. */
  lemma AcceptedExactly(name: seq<byte>)
    ensures Refused(name).None? <==> exists s :: Plain(s) && name == Encode(s) && |name| <= 255
  {
    hide FirstScalar, EncodeScalar;
    if Refused(name).None? {
      Canonical(name);
      assert Plain(Decode(name).value);
    }
    forall s | Plain(s) && name == Encode(s) && |name| <= MAX_FILE_NAME ensures Refused(name).None? {
      RoundTrip(s);
      assert name == EncodeScalar(s[0]) + Encode(s[1..]);
    }
  }

  /** Nor does any byte of an accepted name read as a separator or an ASCII control to who ignores UTF-8. */
  lemma NoUnsafeByte(name: seq<byte>, i: nat)
    requires Refused(name).None? && i < |name|
    ensures name[i] != '/' as int && name[i] != '\\' as int && 0x20 <= name[i] != 0x7F
  {
    hide FirstScalar, EncodeScalar;
    Canonical(name);
    SafeBytes(Decode(name).value, i);
  }

  lemma {:induction false} SafeBytes(s: seq<Scalar>, i: nat)
    requires i < |Encode(s)| && forall j :: 0 <= j < |s| ==> !IsSeparator(s[j]) && !IsControl(s[j])
    ensures var b := Encode(s)[i]; b != '/' as int && b != '\\' as int && 0x20 <= b != 0x7F
  {
    var n := |EncodeScalar(s[0])|;
    if i >= n {
      hide EncodeScalar;
      SafeBytes(s[1..], i - n);
    }
  }
}
