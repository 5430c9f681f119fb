// The facts read out of an event's metadata: result, reason and request id.
module EventFacts {
  import opened Wrappers
  import opened Text

  // fmt.Sprint of the metadata value under a key, if the key is present.
  type Metadata = string -> Option<string>

  predicate Alphanumeric(c: char) {
    'A' <= c <= 'Z' || 'a' <= c <= 'z' || '0' <= c <= '9'
  }

  predicate FilterChar(c: char) {
    Alphanumeric(c) || c == '_' || c == '.' || c == ':' || c == '@' || c == '/' || c == '-'
  }

  // ^[A-Za-z0-9][A-Za-z0-9_.:@/-]{0,127}$
  predicate FilterValue(s: string) {
    1 <= |s| <= 128 && Alphanumeric(s[0]) && forall i :: 0 <= i < |s| ==> FilterChar(s[i])
  }

  const RESULT_KEYS := ["result", "outcome", "status", "decision"]
  const RESULT_WORDS := ["denied", "expired", "failed", "rejected", "cancelled", "succeeded", "completed"]
  const REASON_KEYS := ["reason", "error_code", "message_key", "code"]

  function ResultUnder(metadata: Metadata, key: string): string {
    if metadata(key).Some? then ToLower(TrimSpace(metadata(key).value)) else ""
  }

  // The first listed key with a usable value decides.
  function FirstResult(metadata: Metadata, keys: seq<string>): Option<string> {
    if keys == [] then None
    else if metadata(keys[0]).Some? && FilterValue(ResultUnder(metadata, keys[0])) then
      Some(ResultUnder(metadata, keys[0]))
    else FirstResult(metadata, keys[1..])
  }

  function FirstWord(text: string, words: seq<string>): string {
    if words == [] then "" else if Contains(text, words[0]) then words[0] else FirstWord(text, words[1..])
  }

  function ResultOf(event: string, metadata: Metadata): string {
    var stated := FirstResult(metadata, RESULT_KEYS);
    if stated.Some? then stated.value else FirstWord(ToLower(event), RESULT_WORDS)
  }

  method ExportEventResult(event: string, metadata: Metadata) returns (result: string)
    ensures result == ResultOf(event, metadata)
  {
    for i := 0 to |RESULT_KEYS|
      invariant FirstResult(metadata, RESULT_KEYS) == FirstResult(metadata, RESULT_KEYS[i..])
    {
      assert RESULT_KEYS[i..][1..] == RESULT_KEYS[i + 1..];
      var value := metadata(RESULT_KEYS[i]);
      if value.Some? {
        result := ToLower(TrimSpace(value.value));
        if FilterValue(result) {
          return;
        }
      }
    }
    var lower := ToLower(event);
    for i := 0 to |RESULT_WORDS|
      invariant FirstWord(lower, RESULT_WORDS) == FirstWord(lower, RESULT_WORDS[i..])
    {
      assert RESULT_WORDS[i..][1..] == RESULT_WORDS[i + 1..];
      if Contains(lower, RESULT_WORDS[i]) {
        return RESULT_WORDS[i];
      }
    }
    return "";
  }

  function UsableReason(metadata: Metadata, key: string): Option<string> {
    if metadata(key).None? then None
    else
      var reason := TrimSpace(metadata(key).value);
      if reason != "" && reason != "<nil>" then Some(reason) else None
  }

  function FirstReason(metadata: Metadata, keys: seq<string>): string {
    if keys == [] then ""
    else if UsableReason(metadata, keys[0]).Some? then UsableReason(metadata, keys[0]).value
    else FirstReason(metadata, keys[1..])
  }

  function ReasonOf(metadata: Metadata): string {
    FirstReason(metadata, REASON_KEYS)
  }

  method ExportEventReason(metadata: Metadata) returns (reason: string)
    ensures reason == ReasonOf(metadata)
  {
    for i := 0 to |REASON_KEYS|
      invariant ReasonOf(metadata) == FirstReason(metadata, REASON_KEYS[i..])
    {
      assert REASON_KEYS[i..][1..] == REASON_KEYS[i + 1..];
      var value := metadata(REASON_KEYS[i]);
      if value.Some? {
        reason := TrimSpace(value.value);
        if reason != "" && reason != "<nil>" {
          return;
        }
      }
    }
    return "";
  }

  function RequestIDOf(metadata: Metadata): string {
    if metadata("request_id").Some? then TrimSpace(metadata("request_id").value) else ""
  }

  lemma {:induction false} LowerTwice(s: string)
    ensures ToLower(ToLower(s)) == ToLower(s)
  {
  }

  lemma {:induction false} FirstResultIsUsable(metadata: Metadata, keys: seq<string>)
    ensures var r := FirstResult(metadata, keys); r.Some? ==> FilterValue(r.value) && ToLower(r.value) == r.value
  {
    if keys != [] {
      FirstResultIsUsable(metadata, keys[1..]);
      if metadata(keys[0]).Some? {
        LowerTwice(TrimSpace(metadata(keys[0]).value));
      }
    }
  }

  lemma {:induction false} FirstWordIsListed(text: string, words: seq<string>)
    ensures FirstWord(text, words) == "" || FirstWord(text, words) in words
  {
    if words != [] {
      FirstWordIsListed(text, words[1..]);
    }
  }

  lemma {:induction false} ResultWordsAreUsable()
    ensures forall w :: w in RESULT_WORDS ==> FilterValue(w) && ToLower(w) == w
  {
  }

  // A reported result is blank or a lower-case filter value, so it can be asked for as a filter.
  lemma {:induction false} ResultCanBeFiltered(event: string, metadata: Metadata)
    ensures var r := ResultOf(event, metadata); r == "" || (FilterValue(r) && ToLower(r) == r)
  {
    FirstResultIsUsable(metadata, RESULT_KEYS);
    FirstWordIsListed(ToLower(event), RESULT_WORDS);
    ResultWordsAreUsable();
  }

  // The result, key by key and word by word.
  lemma {:induction false} ResultInFull(event: string, metadata: Metadata)
    ensures var text := (key: string) => if metadata(key).Some? then ToLower(TrimSpace(metadata(key).value)) else "";
            var lower := ToLower(event);
            ResultOf(event, metadata) ==
            if FilterValue(text("result")) then text("result")
            else if FilterValue(text("outcome")) then text("outcome")
            else if FilterValue(text("status")) then text("status")
            else if FilterValue(text("decision")) then text("decision")
            else if Contains(lower, "denied") then "denied"
            else if Contains(lower, "expired") then "expired"
            else if Contains(lower, "failed") then "failed"
            else if Contains(lower, "rejected") then "rejected"
            else if Contains(lower, "cancelled") then "cancelled"
            else if Contains(lower, "succeeded") then "succeeded"
            else if Contains(lower, "completed") then "completed"
            else ""
  {
    hide FilterValue, Contains, TrimSpace, ToLower;
    assert !FilterValue("") by { BlankIsNoFilterValue(); }
    FourResults(metadata, "result", "outcome", "status", "decision");
    SevenWords(ToLower(event), "denied", "expired", "failed", "rejected", "cancelled", "succeeded", "completed");
  }

  lemma {:induction false} BlankIsNoFilterValue()
    ensures !FilterValue("")
  {
  }

  lemma {:induction false} FourResults(metadata: Metadata, a: string, b: string, c: string, d: string)
    ensures var text := (key: string) => ResultUnder(metadata, key);
            FirstResult(metadata, [a, b, c, d]) ==
            if FilterValue(text(a)) then Some(text(a)) else if FilterValue(text(b)) then Some(text(b))
            else if FilterValue(text(c)) then Some(text(c)) else if FilterValue(text(d)) then Some(text(d)) else None
  {
    hide FilterValue, TrimSpace, ToLower;
    assert !FilterValue("") by { BlankIsNoFilterValue(); }
    assert [a, b, c, d][1..] == [b, c, d] && [b, c, d][1..] == [c, d] && [c, d][1..] == [d] && [d][1..] == [];
    assert FirstResult(metadata, []) == None;
    var last := if FilterValue(ResultUnder(metadata, d)) then Some(ResultUnder(metadata, d)) else None;
    assert FirstResult(metadata, [d]) == last;
    var third := if FilterValue(ResultUnder(metadata, c)) then Some(ResultUnder(metadata, c)) else last;
    assert FirstResult(metadata, [c, d]) == third;
    assert FirstResult(metadata, [b, c, d]) ==
           if FilterValue(ResultUnder(metadata, b)) then Some(ResultUnder(metadata, b)) else third;
  }

  lemma {:induction false} SevenWords(text: string, a: string, b: string, c: string, d: string, e: string, f: string,
                                      g: string)
    ensures FirstWord(text, [a, b, c, d, e, f, g]) ==
            if Contains(text, a) then a else if Contains(text, b) then b else if Contains(text, c) then c
            else if Contains(text, d) then d else if Contains(text, e) then e else if Contains(text, f) then f
            else if Contains(text, g) then g else ""
  {
    hide Contains;
    assert [a, b, c, d, e, f, g][1..] == [b, c, d, e, f, g] && [b, c, d, e, f, g][1..] == [c, d, e, f, g];
    assert [c, d, e, f, g][1..] == [d, e, f, g] && [d, e, f, g][1..] == [e, f, g];
    assert [e, f, g][1..] == [f, g] && [f, g][1..] == [g] && [g][1..] == [];
    assert FirstWord(text, []) == "";
    var last := if Contains(text, g) then g else "";
    assert FirstWord(text, [g]) == last;
    var sixth := if Contains(text, f) then f else last;
    assert FirstWord(text, [f, g]) == sixth;
    var fifth := if Contains(text, e) then e else sixth;
    assert FirstWord(text, [e, f, g]) == fifth;
    var fourth := if Contains(text, d) then d else fifth;
    assert FirstWord(text, [d, e, f, g]) == fourth;
    var third := if Contains(text, c) then c else fourth;
    assert FirstWord(text, [c, d, e, f, g]) == third;
    assert FirstWord(text, [b, c, d, e, f, g]) == if Contains(text, b) then b else third;
  }

  // The reason, key by key.
  lemma {:induction false} ReasonInFull(metadata: Metadata)
    ensures var text := (key: string) => if metadata(key).Some? then TrimSpace(metadata(key).value) else "";
            var usable := (key: string) => text(key) != "" && text(key) != "<nil>";
            ReasonOf(metadata) ==
            if usable("reason") then text("reason")
            else if usable("error_code") then text("error_code")
            else if usable("message_key") then text("message_key")
            else if usable("code") then text("code")
            else ""
  {
    hide TrimSpace;
    assert REASON_KEYS[1..] == ["error_code", "message_key", "code"];
    assert ["error_code", "message_key", "code"][1..] == ["message_key", "code"];
    assert ["message_key", "code"][1..] == ["code"] && ["code"][1..] == [];
    assert FirstReason(metadata, []) == "";
  }

  // A filter value by its character codes: letters, digits and a few signs, 1 to 128 of them, a letter or a digit
  // first.
  lemma {:induction false} FilterValueInFull(s: string)
    ensures var letter := (n: int) => 65 <= n <= 90 || 97 <= n <= 122 || 48 <= n <= 57;
            FilterValue(s) <==>
            0 < |s| < 129 && letter(s[0] as int) &&
            forall i :: 0 <= i < |s| ==> letter(s[i] as int) || s[i] in {'_', '.', ':', '@', '/', '-'}
  {
  }
}
