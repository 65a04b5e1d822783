/** Concrete arguments as a tool call logs them, before and after redaction. */
module RedactionExamples {
  import opened Wrappers
  import opened Redaction

  /** A graph id keeps its last four characters; a short or missing one shows nothing. */
  lemma MaskExamples()
    ensures MaskIdentifier(Some("graph-1234")) == "******1234"
    ensures MaskIdentifier(Some("abc")) == "***"
    ensures MaskIdentifier(None) == "<sin definir>"
    ensures MaskIdentifier(Some("")) == "<sin definir>"
  {
    assert Stars(6) == "******" && Stars(3) == "***";
    assert "graph-1234"[6..] == "1234";
  }

  /** A word found at position `i` is contained. */
  lemma {:induction false} ContainsAt(s: string, sub: string, i: nat)
    requires i + |sub| <= |s| && s[i..i + |sub|] == sub
    ensures Contains(s, sub)
  {
    if i > 0 {
      assert s[1..][i - 1..i - 1 + |sub|] == s[i..i + |sub|];
      ContainsAt(s[1..], sub, i - 1);
    } else {
      assert s[..|sub|] == sub;
    }
  }

  /** `apiToken` names a token, whatever the case of its letters. */
  lemma ApiTokenIsSecret(key: string)
    requires key == "apiToken"
    ensures SecretKey(key)
  {
    assert Lower(key) == "apitoken";
    ContainsAt(Lower(key), "token", 3);
  }

  /** `noteText` names content ... */
  lemma NoteTextIsContent(key: string)
    requires key == "noteText"
    ensures ContentKey(key)
  {
    assert Lower(key) == "notetext";
    ContainsAt(Lower(key), "text", 4);
  }

  /** ... and no secret. */
  lemma NoteTextIsNoSecret(key: string)
    requires key == "noteText"
    ensures !SecretKey(key)
  {
    assert Lower(key) == "notetext";
    MissingCharRulesOut(Lower(key), "token", 'k');
    MissingCharRulesOut(Lower(key), "secret", 's');
  }

  /** `limit` names neither. */
  lemma LimitIsOrdinary(key: string)
    requires key == "limit"
    ensures !SecretKey(key) && !ContentKey(key)
  {
    assert Lower(key) == "limit";
    NoSensitiveLetters(key);
  }

  /**
   * `{apiToken: "abc", noteText: "hi", limit: 5}` is logged as
   * `{apiToken: "<redacted>", noteText: "<redacted>", limit: 5}`.
   */
  lemma SanitizeToolArguments(entries: seq<(string, Json)>)
    requires entries == [("apiToken", Str("abc")), ("noteText", Str("hi")), ("limit", Num(5.0))]
    ensures Sanitize(Obj(ObjectPrototype, entries)) == Obj(ObjectPrototype,
      [("apiToken", Str(RedactedText)), ("noteText", Str(RedactedText)), ("limit", Num(5.0))])
  {
    ApiTokenIsSecret(entries[0].0);
    NoteTextIsContent(entries[1].0);
    NoteTextIsNoSecret(entries[1].0);
    LimitIsOrdinary(entries[2].0);
    SanitizeThreeKeys(entries, entries[0].0, entries[1].0, entries[2].0);
  }

  /** An object with a secret key, a content key holding a string and an ordinary key. */
  lemma SanitizeThreeKeys(entries: seq<(string, Json)>, secret: string, content: string,
                          ordinary: string)
    requires SecretKey(secret) && ContentKey(content) && !SecretKey(content)
    requires !SecretKey(ordinary) && !ContentKey(ordinary)
    requires secret != content && secret != ordinary && content != ordinary
    requires "__proto__" !in {secret, content, ordinary}
    requires entries == [(secret, Str("abc")), (content, Str("hi")), (ordinary, Num(5.0))]
    ensures Sanitize(Obj(ObjectPrototype, entries)) == Obj(ObjectPrototype,
      [(secret, Str(RedactedText)), (content, Str(RedactedText)), (ordinary, Num(5.0))])
  {
    var input := Obj(ObjectPrototype, entries);
    assert Keys(entries) == {secret, content, ordinary} by {
      assert entries[0].0 == secret && entries[1].0 == content && entries[2].0 == ordinary;
    }
    SanitizeOrdinaryObject(entries);
    ToolArgumentPairs(entries, input, secret, content, ordinary);
  }

  /** The assignments for a secret key, a content key holding a string and an ordinary key. */
  lemma ToolArgumentPairs(entries: seq<(string, Json)>, input: Json, secret: string,
                          content: string, ordinary: string)
    requires SecretKey(secret) && ContentKey(content) && !SecretKey(content)
    requires !SecretKey(ordinary) && !ContentKey(ordinary)
    requires entries == [(secret, Str("abc")), (content, Str("hi")), (ordinary, Num(5.0))]
    requires forall i :: 0 <= i < |entries| ==> entries[i].1 < input
    ensures SanitizePairs(entries, input)
      == [(secret, Str(RedactedText)), (content, Str(RedactedText)), (ordinary, Num(5.0))]
  {
    var pairs := SanitizePairs(entries, input);
    assert pairs[0] == (secret, Str(RedactedText));
    assert pairs[1] == (content, Str(RedactedText));
    assert pairs[2] == (ordinary, Sanitize(Num(5.0)));
  }
}
