/** Paste hardening: one pass over clipboard text that normalises line ends and drops dangerous scalars. */
module Sanitize {
  import opened Utf8
  import opened Wire

  const CR := '\r'
  const LF := '\n'

  /** Line and paragraph separator. */
  predicate IsSeparator(c: char) { c as int == 0x2028 || c as int == 0x2029 }

  predicate Forbidden(c: char) {
    var u := c as int;
    || 0x00 <= u <= 0x08 || 0x0B <= u <= 0x1F || u == 0x7F || 0x80 <= u <= 0x9F || u == 0xAD
    || u == 0x061C || u == 0x180E || u == 0x2028 || u == 0x2029
    || 0x200B <= u <= 0x200F || 0x202A <= u <= 0x202E
    || 0x2060 <= u <= 0x2064 || 0x2066 <= u <= 0x2069 || 0x206A <= u <= 0x206F
    || u == 0xFEFF || 0xFFF9 <= u <= 0xFFFB || 0xFDD0 <= u <= 0xFDEF
    || 0x1D173 <= u <= 0x1D17A || 0xE0000 <= u <= 0xE007F
    || u % 0x1_0000 >= 0xFFFE
  }

  // ---- The two-pass specification ----

  /** Every line ending, of any convention, becomes one LF. */
  function Normalised(s: string): string {
    if s == "" then ""
    else if s[0] == CR then [LF] + Normalised(if |s| > 1 && s[1] == LF then s[2..] else s[1..])
    else if IsSeparator(s[0]) then [LF] + Normalised(s[1..])
    else [s[0]] + Normalised(s[1..])
  }

  function Stripped(s: string): string {
    if s == "" then "" else (if Forbidden(s[0]) then "" else [s[0]]) + Stripped(s[1..])
  }

  function Sanitized(s: string): string { Stripped(Normalised(s)) }

  /** The single pass over the text computes both passes at once. */
  method SanitizeClipboardText(input: string) returns (out: string)
    ensures out == Sanitized(input)
  {
    hide Sanitized, Forbidden, IsSeparator;
    out := "";
    var i := 0;
    assert input[0..] == input;
    while i < |input|
      invariant i <= |input|
      invariant out + Sanitized(input[i..]) == Sanitized(input)
      decreases |input| - i
    {
      var c := input[i];
      ghost var rest := input[i..];
      i := i + 1;
      if c == CR {
        if i < |input| && input[i] == LF {
          i := i + 1;
        }
        SanitizedCr(rest, input[i..]);
        out := out + [LF];
      } else if IsSeparator(c) {
        SanitizedOther(rest);
        assert rest[1..] == input[i..];
        out := out + [LF];
      } else if Forbidden(c) {
        SanitizedOther(rest);
        assert rest[1..] == input[i..];
      } else {
        SanitizedOther(rest);
        assert rest[1..] == input[i..];
        out := out + [c];
      }
    }
    NothingToSanitize();
    assert input[i..] == "" && out + "" == out;
  }

  lemma SanitizedCr(s: string, rest: string)
    requires s != "" && s[0] == CR
    requires rest == if |s| > 1 && s[1] == LF then s[2..] else s[1..]
    ensures Sanitized(s) == [LF] + Sanitized(rest)
  {
    assert Normalised(s)[1..] == Normalised(rest);
  }

  lemma SanitizedOther(s: string)
    requires s != "" && s[0] != CR
    ensures Sanitized(s) == (if IsSeparator(s[0]) then [LF] else if Forbidden(s[0]) then "" else [s[0]])
                            + Sanitized(s[1..])
  {
    assert Normalised(s)[1..] == Normalised(s[1..]);
  }

  /** None when there is nothing safe to write, so that an empty result never overwrites a clipboard. */
  method SanitizeForPaste(input: string) returns (r: Option<string>)
    ensures r == if Sanitized(input) == "" then None else Some(Sanitized(input))
    ensures r.Some? <==>
              exists i :: 0 <= i < |input| && (!Forbidden(input[i]) || input[i] == CR || IsSeparator(input[i]))
  {
    var out := SanitizeClipboardText(input);
    EmptyResult(input);
    r := if out == "" then None else Some(out);
  }

  lemma {:induction false} EmptyResult(s: string)
    ensures Sanitized(s) != "" <==>
              exists i :: 0 <= i < |s| && (!Forbidden(s[i]) || s[i] == CR || IsSeparator(s[i]))
  {
    if s != "" {
      if s[0] != CR {
        SanitizedOther(s);
        EmptyResult(s[1..]);
        if Sanitized(s[1..]) != "" {
          var i :| 0 <= i < |s[1..]| && (!Forbidden(s[1..][i]) || s[1..][i] == CR || IsSeparator(s[1..][i]));
          assert s[i + 1] == s[1..][i];
        }
        forall i | 1 <= i < |s| && (!Forbidden(s[i]) || s[i] == CR || IsSeparator(s[i]))
          ensures Sanitized(s[1..]) != ""
        {
          assert s[1..][i - 1] == s[i];
        }
      } else {
        SanitizedCr(s, if |s| > 1 && s[1] == LF then s[2..] else s[1..]);
      }
    }
  }

  // ---- What the result guarantees ----

  ghost predicate Safe(s: string) { forall i :: 0 <= i < |s| ==> !Forbidden(s[i]) }

  lemma {:induction false} StrippedIsSafe(s: string)
    ensures Safe(Stripped(s))
  {
    if s != "" {
      StrippedIsSafe(s[1..]);
    }
  }

  lemma {:induction false} SafeIsUnchanged(s: string)
    requires Safe(s)
    ensures Sanitized(s) == s
  {
    if s != "" {
      SanitizedOther(s);
      SafeIsUnchanged(s[1..]);
    }
  }

  /** Nothing forbidden survives, and text that has nothing forbidden is left exactly as it is. */
  lemma Idempotent(s: string)
    ensures Safe(Sanitized(s)) && Sanitized(Sanitized(s)) == Sanitized(s)
    ensures Safe(s) <==> Sanitized(s) == s
  {
    StrippedIsSafe(Normalised(s));
    SafeIsUnchanged(Sanitized(s));
    if Safe(s) {
      SafeIsUnchanged(s);
    }
  }

  /** By numbers: no control but tab and line feed, no bidirectional override or isolate, nothing invisible. */
  lemma NothingDangerousSurvives(s: string, i: nat)
    requires i < |Sanitized(s)|
    ensures var u := Sanitized(s)[i] as int;
            && (u >= 0x20 || u == 0x09 || u == 0x0A) && !(0x7F <= u <= 0x9F)
            && u != 0xAD && u != 0x061C && u != 0x180E && u != 0x2028 && u != 0x2029 && u != 0xFEFF
            && !(0x200B <= u <= 0x200F) && !(0x202A <= u <= 0x202E) && !(0x2060 <= u <= 0x206F && u != 0x2065)
            && !(0xFFF9 <= u <= 0xFFFB) && !(0xFDD0 <= u <= 0xFDEF) && !(0x1D173 <= u <= 0x1D17A)
            && !(0xE0000 <= u <= 0xE007F) && u % 0x1_0000 < 0xFFFE
  {
    StrippedIsSafe(Normalised(s));
  }

  /** And everything else does: text of other characters, tabs and line feeds is left as it is. */
  lemma OrdinaryTextSurvives(s: string)
    requires forall i :: 0 <= i < |s| ==>
               var u := s[i] as int;
               || u == 0x09 || u == 0x0A || 0x20 <= u <= 0x7E || 0xA0 <= u <= 0xAC || 0xAE <= u <= 0x061B
               || 0x061D <= u <= 0x180D || 0x180F <= u <= 0x200A || 0x2010 <= u <= 0x2027 || 0x202F <= u <= 0x205F
               || u == 0x2065 || 0x2070 <= u <= 0xFDCF || 0xFDF0 <= u <= 0xFEFE || 0xFF00 <= u <= 0xFFF8
               || u == 0xFFFC || u == 0xFFFD || 0x1_0000 <= u <= 0x1D172 || 0x1D17B <= u <= 0x1FFFD
               || 0x2_0000 <= u <= 0x2FFFD || 0x3_0000 <= u <= 0x3FFFD || 0xE0080 <= u <= 0xEFFFD
               || 0xF_0000 <= u <= 0xFFFFD
    ensures Sanitized(s) == s
  {
    assert forall i :: 0 <= i < |s| ==> !Forbidden(s[i]);
    SafeIsUnchanged(s);
  }

  /** A line ending of any kind, CR LF together or one of four alone, gives one line feed. */
  lemma LineEndings(rest: string)
    ensures Sanitized(['\r', '\n'] + rest) == ['\n'] + Sanitized(rest)
    ensures Sanitized(['\n'] + rest) == ['\n'] + Sanitized(rest)
    ensures Sanitized(['\U{2028}'] + rest) == ['\n'] + Sanitized(rest)
    ensures Sanitized(['\U{2029}'] + rest) == ['\n'] + Sanitized(rest)
    ensures rest == "" || rest[0] != '\n' ==> Sanitized(['\r'] + rest) == ['\n'] + Sanitized(rest)
  {
    assert (['\r', '\n'] + rest)[2..] == rest;
    SanitizedCr(['\r', '\n'] + rest, rest);
    FirstOther('\n', rest);
    FirstOther('\U{2028}', rest);
    FirstOther('\U{2029}', rest);
    assert (['\r'] + rest)[1..] == rest;
    if rest == "" || rest[0] != '\n' {
      SanitizedCr(['\r'] + rest, rest);
    }
  }

  lemma FirstOther(c: char, rest: string)
    requires c != CR
    ensures Sanitized([c] + rest) ==
            (if IsSeparator(c) then [LF] else if Forbidden(c) then "" else [c]) + Sanitized(rest)
  {
    assert ([c] + rest)[1..] == rest;
    SanitizedOther([c] + rest);
  }

  /** The scalar values of a text. */
  function Scalars(s: string): seq<Scalar> {
    seq(|s|, i requires 0 <= i < |s| => s[i] as int)
  }

  function Utf8Len(s: string): nat { |Encode(Scalars(s))| }

  lemma Utf8LenCons(c: char, s: string)
    ensures Utf8Len([c] + s) == |EncodeScalar(c as int)| + Utf8Len(s)
  {
    hide EncodeScalar;
    assert Scalars([c] + s)[1..] == Scalars(s);
  }

  lemma OneByteLf()
    ensures |EncodeScalar(LF as int)| == 1
  {
  }

  /** The wire bound on the input bounds the output: sanitising never adds a byte. */
  lemma {:induction false} NeverGrows(s: string)
    ensures Utf8Len(Sanitized(s)) <= Utf8Len(s)
    decreases |s|
  {
    hide Sanitized, Forbidden, Utf8Len, EncodeScalar;
    if s == "" {
      NothingToSanitize();
    } else if s[0] == CR {
      var rest := if |s| > 1 && s[1] == LF then s[2..] else s[1..];
      SanitizedCr(s, rest);
      NeverGrows(rest);
      OneByteLf();
      Utf8LenCons(LF, Sanitized(rest));
      assert s == [CR] + s[1..];
      Utf8LenCons(CR, s[1..]);
      if |s| > 1 && s[1] == LF {
        assert s[1..] == [LF] + rest;
        Utf8LenCons(LF, rest);
      }
    } else {
      SanitizedOther(s);
      NeverGrows(s[1..]);
      OneByteLf();
      assert s == [s[0]] + s[1..];
      Utf8LenCons(s[0], s[1..]);
      Utf8LenCons(LF, Sanitized(s[1..]));
      Utf8LenCons(s[0], Sanitized(s[1..]));
      assert "" + Sanitized(s[1..]) == Sanitized(s[1..]);
    }
  }

  // ---- Concatenation ----

  /** The one place where sanitising in pieces differs from sanitising at once. */
  predicate SplitsCrLf(a: string, b: string) { a != "" && a[|a| - 1] == CR && b != "" && b[0] == LF }

  lemma {:induction false} JoinsElsewhere(a: string, b: string)
    requires !SplitsCrLf(a, b)
    ensures Sanitized(a + b) == Sanitized(a) + Sanitized(b)
    decreases |a|
  {
    hide Sanitized, Forbidden, IsSeparator;
    if a == "" {
      assert a + b == b;
      NothingToSanitize();
    } else if a[0] == CR {
      var rest := if |a| > 1 && a[1] == LF then a[2..] else a[1..];
      assert rest + b == if |a + b| > 1 && (a + b)[1] == LF then (a + b)[2..] else (a + b)[1..];
      SanitizedCr(a, rest);
      SanitizedCr(a + b, rest + b);
      JoinsElsewhere(rest, b);
    } else {
      SanitizedOther(a);
      SanitizedOther(a + b);
      assert (a + b)[1..] == a[1..] + b;
      JoinsElsewhere(a[1..], b);
    }
  }

  /** Across a split CR LF the pieces give one LF too many. */
  lemma SplitDoublesTheLine(a: string, b: string)
    requires SplitsCrLf(a, b)
    ensures Sanitized(a + b) == Sanitized(a) + Sanitized(b[1..])
    ensures Sanitized(a) + Sanitized(b) == Sanitized(a) + [LF] + Sanitized(b[1..])
  {
    hide Sanitized, Forbidden;
    var front := a[..|a| - 1];
    assert a == front + [CR] && a + b == front + ([CR] + b);
    JoinsElsewhere(front, [CR]);
    JoinsElsewhere(front, [CR] + b);
    SanitizedCr([CR], "");
    assert ([CR] + b)[2..] == b[1..];
    SanitizedCr([CR] + b, b[1..]);
    NothingToSanitize();
    LineFeedStays(b);
  }

  lemma NothingToSanitize()
    ensures Sanitized("") == ""
  {
  }

  lemma LineFeedStays(s: string)
    requires s != "" && s[0] == LF
    ensures Sanitized(s) == [LF] + Sanitized(s[1..])
  {
    SanitizedOther(s);
  }

  /** Sanitising distributes over concatenation exactly when no CR LF is split. */
  lemma DistributesExactly(a: string, b: string)
    ensures Sanitized(a + b) == Sanitized(a) + Sanitized(b) <==> !SplitsCrLf(a, b)
  {
    if SplitsCrLf(a, b) {
      SplitDoublesTheLine(a, b);
    } else {
      JoinsElsewhere(a, b);
    }
  }
}
