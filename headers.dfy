/** Finding the order-code column and the phone column among a sheet's headers
    (app.py, the loop over `df.columns`). */
module Headers {
  import opened Wrappers
  import opened Text

  const CodeWord: string := "كود"         // "code"
  const NumberWord: string := "رقم"        // "number"
  const RandomWord: string := "عشوائي"     // "random"
  const MobileWord: string := "موبايل"     // "mobile"
  const TelephoneWord: string := "تليفون"  // "telephone"
  const PhoneWord: string := "هاتف"        // "phone"

  /** The order-code test, applied to the lower-cased header. Python's `and` binds
      tighter than `or`, so the test is "code" OR ("number" AND "random"). A header
      that passes holds a keyword, so it is at least as long as one. */
  predicate IsCodeHeader(h: string)
    ensures IsCodeHeader(h) ==> |h| >= |CodeWord|
  {
    var l := Lower(h);
    Contains(l, CodeWord) || (Contains(l, NumberWord) && Contains(l, RandomWord))
  }

  /** The phone test, applied to the lower-cased header. A header that passes is at
      least as long as the shortest phone keyword. */
  predicate IsPhoneHeader(h: string)
    ensures IsPhoneHeader(h) ==> |h| >= |PhoneWord|
  {
    var l := Lower(h);
    Contains(l, MobileWord) || Contains(l, TelephoneWord) || Contains(l, PhoneWord)
  }

  /** A header the loop takes as the phone column: the phone test is only reached
      when the order-code test fails (`elif`). */
  predicate IsPhoneColumn(h: string) {
    !IsCodeHeader(h) && IsPhoneHeader(h)
  }

  /** The positions the loop settles on for `code_col` and `phone_col`; `None`
      stands for Python's `None`. */
  datatype Columns = Columns(code: Option<nat>, phone: Option<nat>)

  /** One iteration of the loop, at column position `i` with header `h`: a header
      passing the order-code test moves the code column to `i`, one taken as the
      phone column moves the phone column to `i`, and any other header leaves both. */
  function ScanStep(c: Columns, i: nat, h: string): (r: Columns)
    ensures IsCodeHeader(h) ==> r.code == Some(i) && r.phone == c.phone
    ensures IsPhoneColumn(h) ==> r.phone == Some(i) && r.code == c.code
    ensures !IsCodeHeader(h) && !IsPhoneColumn(h) ==> r == c
  {
    if IsCodeHeader(h) then c.(code := Some(i))
    else if IsPhoneHeader(h) then c.(phone := Some(i))
    else c
  }

  /** The whole loop as a left fold over the headers. A column found is a position
      of the header list whose header passes that column's test. */
  function DetectColumns(headers: seq<string>): (r: Columns)
    ensures r.code.Some? ==> r.code.value < |headers| && IsCodeHeader(headers[r.code.value])
    ensures r.phone.Some? ==> r.phone.value < |headers| && IsPhoneColumn(headers[r.phone.value])
  {
    if headers == [] then Columns(None, None)
    else
      var n := |headers| - 1;
      ScanStep(DetectColumns(headers[..n]), n, headers[n])
  }

  /** The header loop itself: `code_col` and `phone_col` are overwritten at every
      match, so each ends on the last matching column. */
  method ScanHeaders(headers: seq<string>) returns (c: Columns)
    ensures c == DetectColumns(headers)
  {
    var code: Option<nat> := None;
    var phone: Option<nat> := None;
    for i := 0 to |headers|
      invariant Columns(code, phone) == DetectColumns(headers[..i])
    {
      assert headers[..i + 1][..i] == headers[..i];
      var h := headers[i];
      if IsCodeHeader(h) {
        code := Some(i);
      } else if IsPhoneHeader(h) {
        phone := Some(i);
      }
    }
    assert headers[..|headers|] == headers;
    c := Columns(code, phone);
  }

  /** `i` is the last position whose header satisfies `p`. */
  ghost predicate IsLastMatch(headers: seq<string>, i: nat, p: string -> bool) {
    i < |headers| && p(headers[i]) && forall j :: i < j < |headers| ==> !p(headers[j])
  }

  /** The code column is the last header that passes the order-code test, and there
      is none exactly when no header passes it. */
  lemma {:induction false} CodeColumnIsLastMatch(headers: seq<string>)
    ensures DetectColumns(headers).code.None? <==> forall j :: 0 <= j < |headers| ==> !IsCodeHeader(headers[j])
    ensures DetectColumns(headers).code.Some? ==> IsLastMatch(headers, DetectColumns(headers).code.value, IsCodeHeader)
  {
    if headers != [] {
      var n := |headers| - 1;
      var prefix := headers[..n];
      CodeColumnIsLastMatch(prefix);
      assert forall j :: 0 <= j < n ==> prefix[j] == headers[j];
    }
  }

  /** The phone column is the last header that passes the phone test without passing
      the order-code test, and there is none exactly when no header does. */
  lemma {:induction false} PhoneColumnIsLastMatch(headers: seq<string>)
    ensures DetectColumns(headers).phone.None? <==> forall j :: 0 <= j < |headers| ==> !IsPhoneColumn(headers[j])
    ensures DetectColumns(headers).phone.Some? ==> IsLastMatch(headers, DetectColumns(headers).phone.value, IsPhoneColumn)
  {
    if headers != [] {
      var n := |headers| - 1;
      var prefix := headers[..n];
      PhoneColumnIsLastMatch(prefix);
      assert forall j :: 0 <= j < n ==> prefix[j] == headers[j];
    }
  }

  /** The two columns found are never the same column, and each has a non-empty
      header, so Python's truth test `code_col and phone_col` is the same as "both
      were found". */
  lemma DetectedColumnsDiffer(headers: seq<string>)
    ensures var c := DetectColumns(headers);
      c.code.Some? && c.phone.Some? ==> c.code.value != c.phone.value
    ensures var c := DetectColumns(headers);
      c.code.Some? ==> c.code.value < |headers| && |headers[c.code.value]| > 0
    ensures var c := DetectColumns(headers);
      c.phone.Some? ==> c.phone.value < |headers| && |headers[c.phone.value]| > 0
  {
    var c := DetectColumns(headers);
    if c.code.Some? && c.phone.Some? {
      assert IsCodeHeader(headers[c.code.value]);
      assert !IsCodeHeader(headers[c.phone.value]);
    }
  }

  /** `str.lower()` plays no part in the tests: every keyword is Arabic, which has
      no case, so a header passes a test exactly when its original text does. */
  lemma HeaderTestsIgnoreCase(h: string)
    ensures IsCodeHeader(h) <==> Contains(h, CodeWord) || (Contains(h, NumberWord) && Contains(h, RandomWord))
    ensures IsPhoneHeader(h) <==> Contains(h, MobileWord) || Contains(h, TelephoneWord) || Contains(h, PhoneWord)
  {
    LowerKeepsCaselessWords(h, CodeWord);
    LowerKeepsCaselessWords(h, NumberWord);
    LowerKeepsCaselessWords(h, RandomWord);
    LowerKeepsCaselessWords(h, MobileWord);
    LowerKeepsCaselessWords(h, TelephoneWord);
    LowerKeepsCaselessWords(h, PhoneWord);
  }
}
