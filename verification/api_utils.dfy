/** Content negotiation: whether a request body is XML and whether the
    response should be XML, decided from the Content-Type and Accept
    request headers alone. */
module ApiUtils {
  import opened Wrappers

  /** The two request headers the negotiation reads; `None` is an absent header. */
  datatype Headers = Headers(contentType: Option<string>, accept: Option<string>)

  /** The MIME types recognised as XML. */
  const XmlMimeTypes: seq<string> := ["application/xml", "text/xml"]

  // ---------------------------------------------------------------------
  // ASCII lower-casing

  /** Maps an ASCII capital to its small letter and leaves every other
      character alone. */
  function LowerChar(c: char): (d: char)
    ensures !('A' <= d <= 'Z')
    ensures 'A' <= c <= 'Z' ==> 'a' <= d <= 'z' && d as int - c as int == 'a' as int - 'A' as int
    ensures !('A' <= c <= 'Z') ==> d == c
  {
    if 'A' <= c <= 'Z' then (c as int + 32) as char else c
  }

  /** The string with every ASCII capital replaced by its small letter. */
  function Lower(s: string): (l: string)
    ensures |l| == |s|
    ensures forall i :: 0 <= i < |s| ==> l[i] == LowerChar(s[i])
    ensures forall i :: 0 <= i < |l| ==> !('A' <= l[i] <= 'Z')
  {
    if s == [] then [] else [LowerChar(s[0])] + Lower(s[1..])
  }

  /** `Lower` computed character by character. */
  lemma LowerByChars(s: string, t: string)
    requires |s| == |t|
    requires forall i :: 0 <= i < |s| ==> LowerChar(s[i]) == t[i]
    ensures Lower(s) == t
  {
  }

  /** Lower-casing an already lower-cased string changes nothing. */
  lemma {:induction false} LowerIdempotent(s: string)
    ensures Lower(Lower(s)) == Lower(s)
  {
    if s != [] {
      LowerIdempotent(s[1..]);
      assert Lower(s)[1..] == Lower(s[1..]);
    }
  }

  /** Lower-casing distributes over concatenation. */
  lemma {:induction false} LowerAppend(a: string, b: string)
    ensures Lower(a + b) == Lower(a) + Lower(b)
  {
    if a != [] {
      assert (a + b)[1..] == a[1..] + b;
      LowerAppend(a[1..], b);
    } else {
      assert a + b == b;
    }
  }

  // ---------------------------------------------------------------------
  // Substring test (the `in` operator on two strings)

  /** `sub` occurs in `s` starting at index `i`. */
  predicate OccursAt(s: string, sub: string, i: int) {
    0 <= i && i + |sub| <= |s| && s[i..i + |sub|] == sub
  }

  /** Dropping a first character that does not start an occurrence keeps
      exactly the occurrences, shifted by one. */
  lemma ShiftOccurrence(s: string, sub: string)
    requires s != [] && !(sub <= s)
    ensures (exists i :: OccursAt(s, sub, i)) <==> (exists i :: OccursAt(s[1..], sub, i))
  {
    if exists i :: OccursAt(s[1..], sub, i) {
      var i :| OccursAt(s[1..], sub, i);
      assert s[i + 1..i + 1 + |sub|] == s[1..][i..i + |sub|];
      assert OccursAt(s, sub, i + 1);
    }
    if exists i :: OccursAt(s, sub, i) {
      var i :| OccursAt(s, sub, i);
      if i == 0 {
        assert false;
      }
      assert s[1..][i - 1..i - 1 + |sub|] == s[i..i + |sub|];
      assert OccursAt(s[1..], sub, i - 1);
    }
  }

  /** Python's `sub in s` on two strings: `sub` occurs at some index of `s`;
      the empty string occurs everywhere. */
  function Contains(s: string, sub: string): (r: bool)
    ensures r <==> exists i :: OccursAt(s, sub, i)
  {
    if sub <= s then
      assert OccursAt(s, sub, 0);
      true
    else if s == [] then
      false
    else
      ShiftOccurrence(s, sub);
      Contains(s[1..], sub)
  }

  /** An occurrence in `a` is still an occurrence once text is appended. */
  lemma {:induction false} ContainsAppendRight(a: string, b: string, sub: string)
    requires Contains(a, sub)
    ensures Contains(a + b, sub)
  {
    if sub <= a {
      assert sub <= a + b;
    } else {
      assert (a + b)[1..] == a[1..] + b;
      ContainsAppendRight(a[1..], b, sub);
    }
  }

  /** An occurrence in `b` is still an occurrence once text is prepended. */
  lemma {:induction false} ContainsAppendLeft(a: string, b: string, sub: string)
    requires Contains(b, sub)
    ensures Contains(a + b, sub)
  {
    if a != [] {
      assert (a + b)[1..] == a[1..] + b;
      ContainsAppendLeft(a[1..], b, sub);
    } else {
      assert a + b == b;
    }
  }

  /** Every character of an occurring string is a character of the text. */
  lemma {:induction false} ContainsKeepsChars(s: string, sub: string, c: char)
    requires Contains(s, sub) && c in sub
    ensures c in s
  {
    if sub <= s {
      var k :| 0 <= k < |sub| && sub[k] == c;
      assert s[k] == c;
    } else {
      ContainsKeepsChars(s[1..], sub, c);
    }
  }

  /** A non-empty string never occurs in the empty string. */
  lemma EmptyContainsNothing(sub: string)
    requires sub != []
    ensures !Contains([], sub)
  {
  }

  // ---------------------------------------------------------------------
  // Negotiation predicates

  /** `any(mime in value for mime in mimes)`: some listed MIME type occurs
      in `value`. */
  function AnyContained(mimes: seq<string>, value: string): (r: bool)
    ensures r <==> exists k :: 0 <= k < |mimes| && Contains(value, mimes[k])
  {
    if mimes == [] then
      false
    else
      assert forall k :: 1 <= k < |mimes| ==> mimes[k] == mimes[1..][k - 1];
      Contains(value, mimes[0]) || AnyContained(mimes[1..], value)
  }

  /** The header, read with `''` for an absent one and lower-cased,
      contains one of the XML MIME types. */
  function MentionsXml(header: Option<string>): (r: bool)
    ensures r <==> Contains(Lower(header.GetOr("")), "application/xml") ||
                   Contains(Lower(header.GetOr("")), "text/xml")
  {
    var l := Lower(header.GetOr(""));
    assert XmlMimeTypes[0] == "application/xml" && XmlMimeTypes[1] == "text/xml";
    assert (exists k :: 0 <= k < |XmlMimeTypes| && Contains(l, XmlMimeTypes[k])) <==>
           Contains(l, XmlMimeTypes[0]) || Contains(l, XmlMimeTypes[1]);
    AnyContained(XmlMimeTypes, l)
  }

  /** `is_request_xml`: the request body is XML exactly when the lower-cased
      Content-Type (`''` when absent) contains `application/xml` or `text/xml`. */
  function IsRequestXml(h: Headers): (r: bool)
    ensures r <==> Contains(Lower(h.contentType.GetOr("")), "application/xml") ||
                   Contains(Lower(h.contentType.GetOr("")), "text/xml")
  {
    MentionsXml(h.contentType)
  }

  /** `should_return_xml`: the response should be XML exactly when either
      header, lower-cased, contains an XML MIME type; in particular whenever
      the request body is XML. */
  function ShouldReturnXml(h: Headers): (r: bool)
    ensures IsRequestXml(h) ==> r
    ensures r <==> IsRequestXml(h) ||
                   Contains(Lower(h.accept.GetOr("")), "application/xml") ||
                   Contains(Lower(h.accept.GetOr("")), "text/xml")
  {
    MentionsXml(h.contentType) || MentionsXml(h.accept)
  }

  /** Case does not matter: a Content-Type and its lower-cased form are
      judged alike, as are any two that agree once lower-cased. */
  lemma CaseInsensitive(ct: string, ct': string, accept: Option<string>)
    requires Lower(ct) == Lower(ct')
    ensures IsRequestXml(Headers(Some(ct), accept)) == IsRequestXml(Headers(Some(ct'), accept))
    ensures IsRequestXml(Headers(Some(ct), accept)) == IsRequestXml(Headers(Some(Lower(ct)), accept))
  {
    LowerIdempotent(ct);
  }

  /** `Application/XML` is recognised although its letters are capitals. */
  lemma MixedCaseRecognised(accept: Option<string>)
    ensures IsRequestXml(Headers(Some("Application/XML"), accept))
  {
    LowerByChars("Application/XML", "application/xml");
    assert Contains("application/xml", "application/xml");
  }

  /** An absent Content-Type is read as the empty string, and the empty
      string is not XML. */
  lemma AbsentContentTypeNotXml(accept: Option<string>)
    ensures IsRequestXml(Headers(None, accept)) == IsRequestXml(Headers(Some(""), accept))
    ensures !IsRequestXml(Headers(None, accept))
  {
    assert Lower("") == "";
    EmptyContainsNothing("application/xml");
    EmptyContainsNothing("text/xml");
  }

  /** The match is a substring match: text before or after an XML MIME type
      (media-type parameters such as `; charset=utf-8`) does not stop it. */
  lemma {:induction false} SurroundingTextKeepsMatch(before: string, ct: string, after: string, accept: Option<string>)
    requires IsRequestXml(Headers(Some(ct), accept))
    ensures IsRequestXml(Headers(Some(before + ct + after), accept))
  {
    var l := Lower(ct);
    LowerAppend(before + ct, after);
    LowerAppend(before, ct);
    var m := if Contains(l, "application/xml") then "application/xml" else "text/xml";
    assert Contains(l, m);
    ContainsAppendLeft(Lower(before), l, m);
    ContainsAppendRight(Lower(before) + l, Lower(after), m);
  }

  /** `text/xml; charset=utf-8` is recognised as XML. */
  lemma ParameterisedTypeRecognised(accept: Option<string>)
    ensures IsRequestXml(Headers(Some("text/xml; charset=utf-8"), accept))
  {
    var ct := "text/xml; charset=utf-8";
    LowerByChars(ct, ct);
    assert "text/xml" <= ct;
    assert Contains(ct, "text/xml");
  }

  /** An Accept header naming XML asks for XML whatever the Content-Type,
      JSON included; with no XML in Content-Type it is the Accept header
      alone that decides. */
  lemma AcceptDecidesForNonXmlBody(h: Headers)
    requires !IsRequestXml(h)
    ensures ShouldReturnXml(h) <==> MentionsXml(h.accept)
  {
  }

  /** Both XML MIME types contain the letter x, so a Content-Type without
      an x in either case is never XML. */
  lemma {:induction false} NoLetterXNotXml(ct: string, accept: Option<string>)
    requires 'x' !in ct && 'X' !in ct
    ensures !IsRequestXml(Headers(Some(ct), accept))
  {
    var l := Lower(ct);
    assert 'x' !in l by {
      forall k | 0 <= k < |l| ensures l[k] != 'x' {
        assert ct[k] != 'x' && ct[k] != 'X';
      }
    }
    if Contains(l, "application/xml") {
      ContainsKeepsChars(l, "application/xml", 'x');
    }
    if Contains(l, "text/xml") {
      ContainsKeepsChars(l, "text/xml", 'x');
    }
  }

  /** `Accept: application/xml` asks for XML whatever the Content-Type. */
  lemma XmlAcceptRecognised(ct: Option<string>)
    ensures ShouldReturnXml(Headers(ct, Some("application/xml")))
  {
    LowerByChars("application/xml", "application/xml");
    assert Contains("application/xml", "application/xml");
    assert MentionsXml(Some("application/xml"));
  }

  /** A JSON request that accepts `application/xml`: its body is not XML,
      yet it gets an XML response. */
  lemma JsonBodyXmlAccept()
    ensures !IsRequestXml(Headers(Some("application/json"), Some("application/xml")))
    ensures ShouldReturnXml(Headers(Some("application/json"), Some("application/xml")))
  {
    NoLetterXNotXml("application/json", Some("application/xml"));
    XmlAcceptRecognised(Some("application/json"));
  }

  /** With neither header present the response is JSON. */
  lemma NoHeadersNoXml()
    ensures !ShouldReturnXml(Headers(None, None))
  {
    AbsentContentTypeNotXml(None);
  }
}
