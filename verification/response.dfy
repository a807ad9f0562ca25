/** The fixed HTTP response that SyncServer::load builds from the page
    content, and a strict reader for it that shows the bytes carry the
    content and its exact length. Each char stands for one byte of the
    std::string. */
module HttpResponse {
  import opened Decimal

  datatype Option<T> = None | Some(value: T)

  const StatusLine := "HTTP/1.1 200 OK"
  const Crlf := "\r\n"
  const LengthField := "Content-Length: "
  /** Everything before the length digits. */
  const Head := StatusLine + Crlf + LengthField
  /** The blank line that ends the header block. */
  const HeaderEnd := "\r\n\r\n"

  /** The bytes SyncServer::load stores in response_ for the given content. */
  function Response(content: string): (r: string)
    ensures Head <= r && |r| >= |content| && r[|r| - |content|..] == content
  {
    Head + ToDecimal(|content|) + HeaderEnd + content
  }

  /** What a reader of a response learns: the declared length and the body. */
  datatype Message = Message(contentLength: nat, body: string)

  predicate SeparatorAt(s: string, j: nat) {
    j + 4 <= |s| && s[j..j + 4] == HeaderEnd
  }

  /** The first position at or after i where "\r\n\r\n" starts. */
  function FindHeaderEnd(s: string, i: nat): (r: Option<nat>)
    ensures r.Some? ==> i <= r.value && SeparatorAt(s, r.value)
    ensures r.Some? ==> forall j :: i <= j < r.value ==> !SeparatorAt(s, j)
    ensures r.None? ==> forall j :: i <= j ==> !SeparatorAt(s, j)
    decreases |s| - i
  {
    if i + 4 > |s| then None
    else if s[i..i + 4] == HeaderEnd then Some(i)
    else FindHeaderEnd(s, i + 1)
  }

  /** Reads a response of the shape load produces: the fixed head, a
      canonical decimal length, the first blank line, then the body. */
  function Parse(s: string): Option<Message> {
    if !(Head <= s) then None
    else match FindHeaderEnd(s, 0)
      case None => None
      case Some(k) =>
        if k < |Head| || !IsCanonical(s[|Head|..k]) then None
        else Some(Message(Value(s[|Head|..k]), s[k + 4..]))
  }

  /** Only one place in the fixed head holds a carriage return, and it is
      not followed by a second line break. */
  lemma HeadCarriageReturn(j: nat)
    requires j < |Head| && Head[j] == '\r'
    ensures j == |StatusLine| && Head[j + 2] == 'C'
  {
  }

  /** The header block of a response contains no "\r\n\r\n" of its own, so
      the first one is the separator load writes after the length. */
  lemma {:induction false} FirstHeaderEnd(content: string)
    ensures FindHeaderEnd(Response(content), 0)
            == Some(|Head| + |ToDecimal(|content|)|)
  {
    var s, digits := Response(content), ToDecimal(|content|);
    var k := |Head| + |digits|;
    assert s[k..k + 4] == HeaderEnd;
    forall j | 0 <= j < k
      ensures !SeparatorAt(s, j)
    {
      if j < |Head| {
        assert s[j] == Head[j];
        if Head[j] == '\r' {
          HeadCarriageReturn(j);
          assert s[j..j + 4][2] == Head[j + 2];
        } else {
          assert s[j..j + 4][0] != HeaderEnd[0];
        }
      } else {
        assert s[j] == digits[j - |Head|];
        assert s[j..j + 4][0] != HeaderEnd[0];
      }
    }
    assert SeparatorAt(s, k);
    var r := FindHeaderEnd(s, 0);
    assert r.Some? && r.value == k;
  }

  /** Round trip: reading back the response yields a declared length equal
      to the content's size and a body equal to the content. */
  lemma ParseResponse(content: string)
    ensures Parse(Response(content)) == Some(Message(|content|, content))
  {
    var s, digits := Response(content), ToDecimal(|content|);
    var k := |Head| + |digits|;
    FirstHeaderEnd(content);
    assert s[|Head|..k] == digits;
    assert s[k + 4..] == content;
    ValueOfToDecimal(|content|);
  }

  /** Converse: every string the reader accepts with a declared length that
      matches its body is exactly the response load builds for that body. */
  lemma ResponseOfParse(s: string, m: Message)
    requires Parse(s) == Some(m) && m.contentLength == |m.body|
    ensures s == Response(m.body)
  {
    var k := FindHeaderEnd(s, 0).value;
    var digits := s[|Head|..k];
    ToDecimalOfValue(digits);
    assert s == s[..|Head|] + digits + s[k..k + 4] + s[k + 4..];
  }

  /** load's result depends on the content alone and determines it. */
  lemma ResponseInjective(a: string, b: string)
    requires Response(a) == Response(b)
    ensures a == b
  {
    ParseResponse(a);
    ParseResponse(b);
  }
}
