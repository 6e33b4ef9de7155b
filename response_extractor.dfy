/**
 * The text pipeline that turns the language model's raw reply into the
 * architecture record `{title, problem, tech_stack, mermaid}`
 * (`generateArchitectureFromConversation`, after the completion call).
 *
 * The steps, in the order the code runs them:
 *   1. keep only what stands between the `%%JSON_START%%` and `%%JSON_END%%`
 *      markers, when both occur;
 *   2. take the span from the first `{` to the last `}`;
 *   3. failing that, strip code fences and try step 2 once more;
 *   4. parse strictly, and on failure parse once more after deleting
 *      trailing commas before `}` and `]`;
 *   5. normalise each field, with fixed defaults.
 * `JSON.parse` itself is a parameter: a partial function from text to a value.
 */
module ResponseExtractor {
  import opened Wrappers
  import opened Text
  import opened JsValue

  const StartMarker: string := "%%JSON_START%%"
  const EndMarker: string := "%%JSON_END%%"
  const DefaultTitle: string := "Architecture Diagram"
  /** How much of the conversation stands in for a missing problem statement. */
  const ProblemFallbackLength: nat := 600

  datatype ExtractError =
      /** "OpenAI response did not contain JSON output." */
    | NoJsonOutput
      /** "Failed to parse JSON from OpenAI response: ..." */
    | ParseFailed
      /** The payload parsed to `null`, and reading its `title` throws a TypeError. */
    | NullPayload

  /** The normalised result: always these four fields. */
  datatype Architecture = Architecture(title: string, problem: string, techStack: seq<string>, mermaid: string)

  /** A model of JSON.parse: the value of a text, or None where it throws a SyntaxError. */
  type Parser = string -> Option<Value>

  // ---------------------------------------------------------------------
  // Step 1: markers

  /** `s.split(sep)[0]`: the text before the first occurrence of `sep`, or all of it. */
  function BeforeFirst(s: string, sep: string): string
  {
    match IndexOf(s, sep, 0)
    case Some(j) => s[..j]
    case None => s
  }

  /**
   * `s.split(sep)[1]` for a text that contains `sep`: behind the first
   * occurrence, the text up to the next one, or to the end.
   */
  function AfterFirst(s: string, sep: string): string
    requires Contains(s, sep)
  {
    IndexOfFindsContained(s, sep);
    BeforeFirst(s[IndexOf(s, sep, 0).value + |sep|..], sep)
  }

  /** `text.split(startMarker)[1].split(endMarker)[0].trim()`, when both markers occur. */
  function SliceMarkers(text: string): string
  {
    if Contains(text, StartMarker) && Contains(text, EndMarker) then
      Trim(BeforeFirst(AfterFirst(text, StartMarker), EndMarker))
    else
      text
  }

  lemma BeforeFirstIsFree(s: string, sep: string)
    requires sep != []
    ensures !Contains(BeforeFirst(s, sep), sep)
  {
    var r := BeforeFirst(s, sep);
    if k :| 0 <= k <= |r| && StartsAt(r, sep, k) {
      OccurrenceInInfix(s, r, 0, sep, k);
    }
  }

  lemma AfterFirstIsFree(s: string, sep: string)
    requires sep != [] && Contains(s, sep)
    ensures !Contains(AfterFirst(s, sep), sep)
  {
    IndexOfFindsContained(s, sep);
    BeforeFirstIsFree(s[IndexOf(s, sep, 0).value + |sep|..], sep);
  }

  /** `split(sep)[0]` keeps every character before the first occurrence. */
  lemma BeforeFirstPrefix(s: string, sep: string, n: nat)
    requires n <= |s|
    requires forall k | 0 <= k < n :: !StartsAt(s, sep, k)
    ensures n <= |BeforeFirst(s, sep)| && BeforeFirst(s, sep)[..n] == s[..n]
  {
    var r := IndexOf(s, sep, 0);
    if r.Some? {
      assert StartsAt(s, sep, r.value);
      assert s[..r.value][..n] == s[..n];
    }
  }

  /** A text free of `pat` has trimmed infixes free of it too. */
  lemma TrimKeepsFree(s: string, pat: string)
    requires !Contains(s, pat)
    ensures !Contains(Trim(s), pat)
  {
    TrimIsInfix(s);
    var i, j :| 0 <= i <= j <= |s| && Trim(s) == s[i..j] && AllSpace(s[..i]) && AllSpace(s[j..]);
    InfixKeepsFree(s, pat, i, j);
  }

  /**
   * Marker slicing happens exactly when both markers occur; its result then
   * holds neither marker and is trimmed; otherwise the text is unchanged.
   */
  lemma {:induction false} SliceMarkersSpec(text: string)
    ensures Contains(text, StartMarker) && Contains(text, EndMarker) ==>
              var r := SliceMarkers(text);
              !Contains(r, StartMarker) && !Contains(r, EndMarker) && Trimmed(r)
    ensures !(Contains(text, StartMarker) && Contains(text, EndMarker)) ==> SliceMarkers(text) == text
  {
    if Contains(text, StartMarker) && Contains(text, EndMarker) {
      var seg := AfterFirst(text, StartMarker);
      AfterFirstIsFree(text, StartMarker);
      var head := BeforeFirst(seg, EndMarker);
      BeforeFirstIsFree(seg, EndMarker);
      assert seg[0..|head|] == head;
      InfixKeepsFree(seg, StartMarker, 0, |head|);
      TrimKeepsFree(head, StartMarker);
      TrimKeepsFree(head, EndMarker);
    }
  }

  // ---------------------------------------------------------------------
  // Step 2: the greedy match of /\{[\s\S]*\}/

  /** Some `{` stands before some `}`. */
  predicate HasBraceSpan(s: string) {
    exists i, j | 0 <= i < j < |s| :: s[i] == '{' && s[j] == '}'
  }

  function FirstIndex(s: string, c: char, from: nat): (r: Option<nat>)
    ensures r.Some? ==> from <= r.value < |s| && s[r.value] == c
    ensures r.Some? ==> forall k | from <= k < r.value :: s[k] != c
    ensures r.None? ==> forall k | from <= k < |s| :: s[k] != c
    decreases |s| - from
  {
    if from >= |s| then None
    else if s[from] == c then Some(from)
    else FirstIndex(s, c, from + 1)
  }

  /** The last index below `upto` where `c` stands. */
  function LastIndex(s: string, c: char, upto: nat): (r: Option<nat>)
    requires upto <= |s|
    ensures r.Some? ==> r.value < upto && s[r.value] == c
    ensures r.Some? ==> forall k | r.value < k < upto :: s[k] != c
    ensures r.None? ==> forall k | 0 <= k < upto :: s[k] != c
  {
    if upto == 0 then None
    else if s[upto - 1] == c then Some(upto - 1)
    else LastIndex(s, c, upto - 1)
  }

  /**
   * `text.match(/\{[\s\S]*\}/)`: the leftmost match starts at the first `{`
   * and, being greedy, ends at the last `}`; there is none unless some `{`
   * precedes some `}`.
   */
  function BraceSpan(s: string): (r: Option<string>)
    ensures r.Some? <==> HasBraceSpan(s)
    ensures r.Some? ==> exists i, j | 0 <= i < j < |s| ::
                          && r.value == s[i..j + 1] && s[i] == '{' && s[j] == '}'
                          && (forall k | 0 <= k < i :: s[k] != '{')
                          && (forall k | j < k < |s| :: s[k] != '}')
  {
    var first := FirstIndex(s, '{', 0);
    var last := LastIndex(s, '}', |s|);
    if first.Some? && last.Some? && first.value < last.value then
      Some(s[first.value..last.value + 1])
    else
      None
  }

  /** The first character decides the span of a text that begins with a brace. */
  lemma {:induction false} HasBraceSpanCons(s: string)
    requires s != []
    ensures HasBraceSpan(s) <==> HasBraceSpan(s[1..]) || (s[0] == '{' && '}' in s[1..])
  {
    if HasBraceSpan(s) {
      var i, j :| 0 <= i < j < |s| && s[i] == '{' && s[j] == '}';
      if i == 0 {
        assert s[1..][j - 1] == '}';
      } else {
        assert s[1..][i - 1] == '{' && s[1..][j - 1] == '}';
      }
    }
    if HasBraceSpan(s[1..]) {
      var i, j :| 0 <= i < j < |s[1..]| && s[1..][i] == '{' && s[1..][j] == '}';
      assert s[i + 1] == '{' && s[j + 1] == '}';
    }
    if s[0] == '{' && '}' in s[1..] {
      var j :| 0 <= j < |s[1..]| && s[1..][j] == '}';
      assert s[j + 1] == '}';
    }
  }

  /** Deleting characters other than braces changes neither whether there is a span nor whether there is a `}`. */
  lemma {:induction false} ErasureKeepsBraceSpan(s: string, t: string, del: char -> bool)
    requires ErasesOnly(s, t, del) && !del('{') && !del('}')
    ensures HasBraceSpan(s) == HasBraceSpan(t)
    ensures ('}' in s) == ('}' in t)
    decreases |s|
  {
    if s != [] {
      HasBraceSpanCons(s);
      assert s == [s[0]] + s[1..];
      if del(s[0]) && ErasesOnly(s[1..], t, del) {
        ErasureKeepsBraceSpan(s[1..], t, del);
      } else {
        ErasureKeepsBraceSpan(s[1..], t[1..], del);
        HasBraceSpanCons(t);
        assert t == [t[0]] + t[1..];
      }
    }
  }

  // ---------------------------------------------------------------------
  // Step 3: code-fence fallback

  /** /```json\s*\/i matches at `k`, up to its trailing whitespace. */
  predicate JsonFenceAt(s: string, k: nat) {
    && k + 7 <= |s| && s[k..k + 3] == "```"
    && (s[k + 3] == 'j' || s[k + 3] == 'J') && (s[k + 4] == 's' || s[k + 4] == 'S')
    && (s[k + 5] == 'o' || s[k + 5] == 'O') && (s[k + 6] == 'n' || s[k + 6] == 'N')
  }

  /** The first tagged fence at or after `from`. */
  function FirstJsonFence(s: string, from: nat): (r: Option<nat>)
    ensures r.Some? ==> from <= r.value && JsonFenceAt(s, r.value)
    ensures r.Some? ==> forall k | from <= k < r.value :: !JsonFenceAt(s, k)
    ensures r.None? ==> forall k | from <= k :: !JsonFenceAt(s, k)
    decreases |s| - from
  {
    if from + 7 > |s| then None
    else if JsonFenceAt(s, from) then Some(from)
    else FirstJsonFence(s, from + 1)
  }

  /** `text.replace(/```json\s*\/i, "")`: the first tagged fence and the whitespace after it go. */
  function RemoveJsonFence(s: string): string
  {
    match FirstJsonFence(s, 0)
    case None => s
    case Some(k) => s[..k] + TrimStart(s[k + 7..])
  }

  /** `text.replace(/```/g, "")`: every backtick triple, scanning left to right. */
  function RemoveBacktickFences(s: string): string
    decreases |s|
  {
    if |s| >= 3 && s[..3] == "```" then RemoveBacktickFences(s[3..])
    else if s == [] then []
    else [s[0]] + RemoveBacktickFences(s[1..])
  }

  function StripFences(s: string): string
  {
    Trim(RemoveBacktickFences(RemoveJsonFence(s)))
  }

  /** What fence stripping may delete: backticks, the letters of a `json` tag, whitespace. */
  predicate IsFenceChar(c: char) {
    || c == '`' || IsSpace(c)
    || c == 'j' || c == 's' || c == 'o' || c == 'n'
    || c == 'J' || c == 'S' || c == 'O' || c == 'N'
  }

  lemma {:induction false} RemoveBacktickFencesErases(s: string)
    ensures ErasesOnly(s, RemoveBacktickFences(s), IsFenceChar)
    decreases |s|
  {
    if |s| >= 3 && s[..3] == "```" {
      RemoveBacktickFencesErases(s[3..]);
      ErasesAll(s[..3], IsFenceChar);
      ErasesConcat(s[..3], [], s[3..], RemoveBacktickFences(s[3..]), IsFenceChar);
      assert s == s[..3] + s[3..];
    } else if s != [] {
      RemoveBacktickFencesErases(s[1..]);
    }
  }

  /** The seven characters of a tagged fence may all be deleted. */
  lemma JsonTagErases(s: string, k: nat)
    requires JsonFenceAt(s, k)
    ensures ErasesOnly(s[k..k + 7], [], IsFenceChar)
  {
    var tag := s[k..k + 7];
    forall m | 0 <= m < 7 ensures IsFenceChar(tag[m]) {
      assert tag[m] == s[k + m];
      if m < 3 {
        assert s[k..k + 3][m] == s[k + m];
      }
    }
    ErasesAll(tag, IsFenceChar);
  }

  /** Deleting a middle piece entirely and erasing within the tail is an erasure of the whole. */
  lemma ErasesSplice(pre: string, mid: string, rest: string, rest': string, del: char -> bool)
    requires ErasesOnly(mid, [], del) && ErasesOnly(rest, rest', del)
    ensures ErasesOnly(pre + (mid + rest), pre + rest', del)
  {
    ErasesConcat(mid, [], rest, rest', del);
    assert [] + rest' == rest';
    ErasesNothing(pre, del);
    ErasesConcat(pre, pre, mid + rest, rest', del);
  }

  lemma RemoveFenceAtErases(s: string, k: nat)
    requires JsonFenceAt(s, k)
    ensures ErasesOnly(s, s[..k] + TrimStart(s[k + 7..]), IsFenceChar)
  {
    var pre, tag, rest := s[..k], s[k..k + 7], s[k + 7..];
    JsonTagErases(s, k);
    ErasesLeadingSpace(rest, IsFenceChar);
    ErasesSplice(pre, tag, rest, TrimStart(rest), IsFenceChar);
    assert s == pre + (tag + rest);
  }

  lemma RemoveJsonFenceErases(s: string)
    ensures ErasesOnly(s, RemoveJsonFence(s), IsFenceChar)
  {
    var f := FirstJsonFence(s, 0);
    if f.None? {
      ErasesNothing(s, IsFenceChar);
    } else {
      RemoveFenceAtErases(s, f.value);
    }
  }

  /** Fence stripping deletes only backticks, `json` tag letters and whitespace. */
  lemma StripFencesErasesFenceChars(s: string)
    ensures ErasesOnly(s, StripFences(s), IsFenceChar)
  {
    var a := RemoveJsonFence(s);
    var b := RemoveBacktickFences(a);
    RemoveJsonFenceErases(s);
    RemoveBacktickFencesErases(a);
    ErasesSpace(b, IsFenceChar);
    ErasesTrans(s, a, b, IsFenceChar);
    ErasesTrans(s, b, Trim(b), IsFenceChar);
  }

  /** The JSON candidate: the brace span, looked for again after fence stripping. */
  function Candidate(text: string): Result<string, ExtractError>
  {
    var t := SliceMarkers(text);
    match BraceSpan(t)
    case Some(m) => Success(m)
    case None =>
      match BraceSpan(StripFences(t))
      case Some(m) => Success(m)
      case None => Failure(NoJsonOutput)
  }

  /**
   * The fence fallback never rescues a reply: stripping fences deletes no
   * brace, so it finds a span exactly when the first match did.  A reply
   * (after marker slicing) with no `{` before a `}` always fails with
   * NoJsonOutput, and any other yields the first brace span.
   */
  lemma CandidateSpec(text: string)
    ensures Candidate(text).Failure? <==> !HasBraceSpan(SliceMarkers(text))
    ensures Candidate(text).Failure? ==> Candidate(text).error == NoJsonOutput
    ensures Candidate(text).Success? ==> Some(Candidate(text).value) == BraceSpan(SliceMarkers(text))
  {
    var t := SliceMarkers(text);
    StripFencesKeepsSpan(t);
    if BraceSpan(t).None? {
      assert BraceSpan(StripFences(t)).None?;
    }
  }

  /** Stripping fences finds a brace span exactly when there was one before. */
  lemma StripFencesKeepsSpan(t: string)
    ensures HasBraceSpan(StripFences(t)) == HasBraceSpan(t)
  {
    StripFencesErasesFenceChars(t);
    ErasureKeepsBraceSpan(t, StripFences(t), IsFenceChar);
  }

  // ---------------------------------------------------------------------
  // Step 4: strict parse, then one retry after the trailing-comma repair

  /** After whitespace, `t` continues with `close`. */
  predicate CloseFollows(t: string, close: char) {
    var u := TrimStart(t);
    u != [] && u[0] == close
  }

  /** `text.replace(/,\s*<close>/g, "<close>")`, scanning left to right. */
  function RepairClose(s: string, close: char): string
    decreases |s|
  {
    if s == [] then []
    else if s[0] == ',' && CloseFollows(s[1..], close) then [close] + RepairClose(TrimStart(s[1..])[1..], close)
    else [s[0]] + RepairClose(s[1..], close)
  }

  /** `text.replace(/,\s*}/g, "}").replace(/,\s*]/g, "]")`. */
  function RepairTrailingCommas(s: string): string
  {
    RepairClose(RepairClose(s, '}'), ']')
  }

  predicate IsCommaOrSpace(c: char) {
    c == ',' || IsSpace(c)
  }

  lemma {:induction false} RepairCloseErases(s: string, close: char)
    requires !IsCommaOrSpace(close)
    ensures ErasesOnly(s, RepairClose(s, close), IsCommaOrSpace)
    decreases |s|
  {
    if s == [] {
    } else if s[0] == ',' && CloseFollows(s[1..], close) {
      var u := TrimStart(s[1..]);
      var w := |s[1..]| - |u|;
      RepairCloseErases(u[1..], close);
      ErasesLeadingSpace(s[1..], IsCommaOrSpace);
      assert u == [close] + u[1..];
      ErasesNothing([close], IsCommaOrSpace);
      ErasesConcat([close], [close], u[1..], RepairClose(u[1..], close), IsCommaOrSpace);
      ErasesTrans(s[1..], u, [close] + RepairClose(u[1..], close), IsCommaOrSpace);
    } else {
      RepairCloseErases(s[1..], close);
    }
  }

  /** The repair deletes only commas and whitespace. */
  lemma RepairErasesCommasAndSpace(s: string)
    ensures ErasesOnly(s, RepairTrailingCommas(s), IsCommaOrSpace)
  {
    RepairCloseErases(s, '}');
    RepairCloseErases(RepairClose(s, '}'), ']');
    ErasesTrans(s, RepairClose(s, '}'), RepairTrailingCommas(s), IsCommaOrSpace);
  }

  /** No comma of `s` is followed, after whitespace, by `close`. */
  predicate NoTrailingComma(s: string, close: char) {
    forall k | 0 <= k < |s| && s[k] == ',' :: !CloseFollows(s[k + 1..], close)
  }

  lemma {:induction false} RepairCloseIdentity(s: string, close: char)
    requires NoTrailingComma(s, close)
    ensures RepairClose(s, close) == s
    decreases |s|
  {
    if s != [] {
      forall k | 0 <= k < |s[1..]| && s[1..][k] == ','
        ensures !CloseFollows(s[1..][k + 1..], close)
      {
        assert s[1..][k + 1..] == s[k + 2..];
      }
      RepairCloseIdentity(s[1..], close);
    }
  }

  /** Text without a comma is left as it is. */
  lemma RepairWithoutComma(s: string)
    requires ',' !in s
    ensures RepairTrailingCommas(s) == s
  {
    CommaFreeHasNoTrailingComma(s, '}');
    CommaFreeHasNoTrailingComma(s, ']');
    RepairCloseIdentity(s, '}');
    RepairCloseIdentity(s, ']');
  }

  /**
   * The scan passes over a prefix none of whose commas is followed by
   * `close` in the whole text.
   */
  lemma {:induction false} RepairClosePrefix(a: string, t: string, close: char)
    requires forall k | 0 <= k < |a| && a[k] == ',' :: !CloseFollows((a + t)[k + 1..], close)
    ensures RepairClose(a + t, close) == a + RepairClose(t, close)
    decreases |a|
  {
    if a == [] {
      assert a + t == t;
    } else {
      assert (a + t)[1..] == a[1..] + t;
      forall k | 0 <= k < |a[1..]| && a[1..][k] == ','
        ensures !CloseFollows((a[1..] + t)[k + 1..], close)
      {
        assert (a[1..] + t)[k + 1..] == (a + t)[k + 2..];
      }
      RepairClosePrefix(a[1..], t, close);
    }
  }

  /**
   * What a comma of `a` sees after it when `a` is followed by `y`, it also
   * sees when `a` is followed by `z`, provided both begin with a non-space
   * character and `z` begins with `close` whenever `y` does.
   */
  lemma PrefixCommaContext(a: string, y: string, z: string, close: char, k: nat)
    requires k < |a|
    requires y != [] && z != [] && !IsSpace(y[0]) && !IsSpace(z[0]) && (y[0] == close ==> z[0] == close)
    ensures CloseFollows((a + y)[k + 1..], close) ==> CloseFollows((a + z)[k + 1..], close)
  {
    var x := a[k + 1..];
    assert (a + y)[k + 1..] == x + y;
    assert (a + z)[k + 1..] == x + z;
    if TrimStart(x) == [] {
      TrimStartAllSpace(x);
      TrimStartSpacePrefix(x, y);
      TrimStartSpacePrefix(x, z);
      TrimStartOfTrimmed(y);
      TrimStartOfTrimmed(z);
    } else {
      TrimStartStopsEarly(x, y);
      TrimStartStopsEarly(x, z);
    }
  }

  /** The scan replaces a comma, the whitespace after it and `close` by `close`. */
  lemma RepairCloseAtComma(w: string, b: string, close: char)
    requires AllSpace(w) && !IsCommaOrSpace(close)
    ensures RepairClose([','] + w + [close] + b, close) == [close] + RepairClose(b, close)
  {
    var tail := [','] + w + [close] + b;
    assert tail[1..] == w + ([close] + b);
    TrimStartSpacePrefix(w, [close] + b);
    TrimStartOfTrimmed([close] + b);
    assert TrimStart(tail[1..])[1..] == b;
  }

  /** The repair conditions of a suffix follow from those of the whole. */
  lemma NoTrailingCommaSuffix(a: string, b: string, close: char)
    requires NoTrailingComma(a + b, close)
    ensures NoTrailingComma(b, close)
  {
    forall k | 0 <= k < |b| && b[k] == ','
      ensures !CloseFollows(b[k + 1..], close)
    {
      assert (a + b)[|a| + k] == ',';
      assert (a + b)[|a| + k + 1..] == b[k + 1..];
    }
  }

  /** A trailing comma before `close` is removed when no other comma needs repairing. */
  lemma RepairCloseDropsComma(a: string, w: string, b: string, close: char)
    requires AllSpace(w) && !IsCommaOrSpace(close)
    requires NoTrailingComma(a + [close] + b, close)
    ensures RepairClose(a + [','] + w + [close] + b, close) == a + [close] + b
  {
    var tail := [','] + w + [close] + b;
    var clean := a + [close] + b;
    assert a + [','] + w + [close] + b == a + tail;
    assert clean == a + ([close] + b);
    forall k | 0 <= k < |a| && a[k] == ','
      ensures !CloseFollows((a + tail)[k + 1..], close)
    {
      assert clean[k] == ',';
      PrefixCommaContext(a, tail, [close] + b, close, k);
    }
    RepairClosePrefix(a, tail, close);
    RepairCloseAtComma(w, b, close);
    NoTrailingCommaSuffix(a + [close], b, close);
    RepairCloseIdentity(b, close);
  }

  /** A comma followed, after whitespace, by another closing character is no trailing comma. */
  lemma CommaBeforeOther(w: string, rest: string, close: char)
    requires AllSpace(w) && rest != [] && !IsSpace(rest[0]) && rest[0] != close
    ensures !CloseFollows(w + rest, close)
  {
    TrimStartSpacePrefix(w, rest);
    TrimStartOfTrimmed(rest);
  }

  /** A comma inside the tail `y` of `x + y` sees what it sees in `y`. */
  lemma NoTrailingCommaInTail(x: string, y: string, close: char, k: nat)
    requires NoTrailingComma(y, close) && |x| <= k < |x + y| && (x + y)[k] == ','
    ensures !CloseFollows((x + y)[k + 1..], close)
  {
    assert (x + y)[k] == y[k - |x|];
    assert (x + y)[k + 1..] == y[k - |x| + 1..];
  }

  /** The pass for `close` leaves a comma alone that is followed by another closing character `other`. */
  lemma RepairCloseKeepsOther(a: string, w: string, b: string, close: char, other: char)
    requires AllSpace(w) && !IsCommaOrSpace(close) && !IsCommaOrSpace(other) && close != other
    requires NoTrailingComma(a + [other] + b, close)
    ensures RepairClose(a + [','] + w + [other] + b, close) == a + [','] + w + [other] + b
  {
    var rest := [other] + b;
    var head := a + [','] + w;
    var s := head + rest;
    assert s == a + [','] + w + [other] + b;
    assert a + [other] + b == a + rest;
    NoTrailingCommaSuffix(a, rest, close);
    forall j | |a| < j < |head| ensures s[j] != ',' {
      assert s[j] == w[j - |a| - 1];
    }
    forall k | 0 <= k < |s| && s[k] == ','
      ensures !CloseFollows(s[k + 1..], close)
    {
      if k < |a| {
        assert (a + rest)[k] == ',';
        assert s == a + ([','] + w + rest);
        PrefixCommaContext(a, [','] + w + rest, rest, close, k);
      } else if k == |a| {
        assert s[k + 1..] == w + rest;
        CommaBeforeOther(w, rest, close);
      } else {
        assert k >= |head|;
        NoTrailingCommaInTail(head, rest, close, k);
      }
    }
    RepairCloseIdentity(s, close);
  }

  /**
   * One trailing comma before `}` or `]` is deleted, with the whitespace
   * after it, when no other comma needs repairing.
   */
  lemma RepairDropsTrailingComma(a: string, w: string, b: string, close: char)
    requires close == '}' || close == ']'
    requires AllSpace(w)
    requires NoTrailingComma(a + [close] + b, '}') && NoTrailingComma(a + [close] + b, ']')
    ensures RepairTrailingCommas(a + [','] + w + [close] + b) == a + [close] + b
  {
    var s := a + [','] + w + [close] + b;
    if close == '}' {
      RepairCloseDropsComma(a, w, b, '}');
      RepairCloseIdentity(a + [close] + b, ']');
    } else {
      RepairCloseKeepsOther(a, w, b, '}', ']');
      RepairCloseDropsComma(a, w, b, ']');
    }
  }

  /** `,}` becomes `}` and `, ]` becomes `]`. */
  lemma RepairExamples()
    ensures RepairTrailingCommas("{\"a\":1,}") == "{\"a\":1}"
    ensures RepairTrailingCommas("[1, ]") == "[1]"
  {
    var a1, a2 := "{\"a\":1", "[1";
    assert ',' !in a1 + "}" && ',' !in a2 + "]";
    CommaFreeHasNoTrailingComma(a1 + "}", '}');
    CommaFreeHasNoTrailingComma(a1 + "}", ']');
    CommaFreeHasNoTrailingComma(a2 + "]", '}');
    CommaFreeHasNoTrailingComma(a2 + "]", ']');
    assert AllSpace(" ");
    RepairDropsTrailingComma(a1, "", "", '}');
    assert a1 + [','] + "" + ['}'] + "" == "{\"a\":1,}";
    RepairDropsTrailingComma(a2, " ", "", ']');
    assert a2 + [','] + " " + [']'] + "" == "[1, ]";
  }

  lemma CommaFreeHasNoTrailingComma(s: string, close: char)
    requires ',' !in s
    ensures NoTrailingComma(s, close)
  {
  }

  /** What the parse step did: the texts handed to the parser, in order, and the outcome. */
  datatype ParseRun = ParseRun(attempts: seq<string>, outcome: Result<Value, ExtractError>)

  /**
   * `JSON.parse(text)`, and in its catch block exactly one more call on the
   * repaired text; a second failure is ParseFailed.
   */
  function ParsePayload(text: string, parse: Parser): (r: ParseRun)
    ensures 1 <= |r.attempts| <= 2 && r.attempts[0] == text
    ensures |r.attempts| == 2 <==> parse(text).None?
    ensures |r.attempts| == 2 ==> r.attempts[1] == RepairTrailingCommas(text)
    ensures r.outcome.Success? <==> parse(r.attempts[|r.attempts| - 1]).Some?
    ensures r.outcome.Success? ==> r.outcome.value == parse(r.attempts[|r.attempts| - 1]).value
    ensures r.outcome.Failure? ==> r.outcome.error == ParseFailed
  {
    match parse(text)
    case Some(v) => ParseRun([text], Success(v))
    case None =>
      var cleaned := RepairTrailingCommas(text);
      match parse(cleaned)
      case Some(v) => ParseRun([text, cleaned], Success(v))
      case None => ParseRun([text, cleaned], Failure(ParseFailed))
  }

  /**
   * A payload that a strict parser rejects only for one trailing comma
   * parses (or fails) exactly as the same payload without it.
   */
  lemma TrailingCommaTolerated(a: string, w: string, b: string, close: char, parse: Parser)
    requires close == '}' || close == ']'
    requires AllSpace(w)
    requires NoTrailingComma(a + [close] + b, '}') && NoTrailingComma(a + [close] + b, ']')
    requires parse(a + [','] + w + [close] + b).None?
    ensures ParsePayload(a + [','] + w + [close] + b, parse).outcome == ParsePayload(a + [close] + b, parse).outcome
  {
    var clean := a + [close] + b;
    RepairDropsTrailingComma(a, w, b, close);
    RepairCloseIdentity(clean, '}');
    RepairCloseIdentity(clean, ']');
  }

  /**
   * The same promise for the whole pipeline: a brace-delimited reply that a
   * strict parser rejects only for one trailing comma extracts exactly as
   * the reply without it.
   */
  lemma TrailingCommaExtracts(a: string, w: string, b: string, close: char, convoText: string, parse: Parser)
    requires close == '}' || close == ']'
    requires AllSpace(w)
    requires a != [] && a[0] == '{' && ([close] + b)[|b|] == '}'
    requires NoTrailingComma(a + [close] + b, '}') && NoTrailingComma(a + [close] + b, ']')
    requires parse(a + [','] + w + [close] + b).None?
    requires !(Contains(a + [','] + w + [close] + b, StartMarker) && Contains(a + [','] + w + [close] + b, EndMarker))
    ensures ExtractArchitecture(a + [','] + w + [close] + b, convoText, parse)
         == ExtractArchitecture(a + [close] + b, convoText, parse)
  {
    var p, q := a + [','] + w + [close] + b, a + [close] + b;
    assert p == a + ([','] + w) + [close] + b;
    assert p[|p| - 1] == ([close] + b)[|b|] == q[|q| - 1];
    MarkerShapes();
    ContainsAcrossDeletion(a, [','] + w, close, b, StartMarker);
    ContainsAcrossDeletion(a, [','] + w, close, b, EndMarker);
    BarePayload(p);
    BarePayload(q);
    TrailingCommaTolerated(a, w, b, close, parse);
  }

  /** Deleting text just before a character the pattern lacks removes no occurrence of it. */
  lemma ContainsAcrossDeletion(a: string, mid: string, c: char, b: string, m: string)
    requires c !in m
    ensures Contains(a + [c] + b, m) ==> Contains(a + mid + [c] + b, m)
  {
    var q, p := a + [c] + b, a + mid + [c] + b;
    if Contains(q, m) {
      var k :| 0 <= k <= |q| && StartsAt(q, m, k);
      if k + |m| <= |a| {
        assert q == a + ([c] + b) && p == a + (mid + [c] + b);
        StartsAtPrefix(a, [c] + b, m, k);
        StartsAtPrefix(a, mid + [c] + b, m, k);
        assert StartsAt(p, m, k);
      } else if k > |a| {
        assert p == (a + mid + [c]) + b;
        StartsAtShift(a + [c], b, m, k);
        StartsAtShift(a + mid + [c], b, m, k + |mid|);
        assert StartsAt(p, m, k + |mid|);
      } else {
        CharOfOccurrence(q, m, k, |a|);
        assert false;
      }
    }
  }

  /** Every character an occurrence covers is a character of the pattern. */
  lemma CharOfOccurrence(s: string, m: string, k: nat, i: nat)
    requires StartsAt(s, m, k) && k <= i < k + |m|
    ensures s[i] in m
  {
    assert s[k..k + |m|][i - k] == s[i];
  }

  // ---------------------------------------------------------------------
  // Step 5: normalisation

  /** `String(v).trim()`. */
  function TrimmedString(v: Value): (r: string)
    ensures Trimmed(r)
  {
    Trim(ToJsString(v))
  }

  /**
   * `tech_stack`: an array becomes its trimmed renderings, a string its
   * trimmed comma-separated pieces, anything else the empty list.
   */
  function NormalizeTechStack(v: Value): (r: seq<string>)
    ensures forall k | 0 <= k < |r| :: Trimmed(r[k])
    ensures v.Array? ==> |r| == |v.items| && forall k | 0 <= k < |r| :: r[k] == TrimmedString(v.items[k])
    ensures v.Str? ==> |r| == CountChar(v.s, ',') + 1 && forall k | 0 <= k < |r| :: r[k] == Trim(Split(v.s, ',')[k])
    ensures !v.Array? && !v.Str? ==> r == []
  {
    match v
    case Array(items) => seq(|items|, k requires 0 <= k < |items| => TrimmedString(items[k]))
    case Str(s) =>
      var parts := Split(s, ',');
      seq(|parts|, k requires 0 <= k < |parts| => Trim(parts[k]))
    case _ => []
  }

  /**
   * A list of names and the same names joined by commas normalise alike,
   * provided no name holds a comma.
   */
  lemma TechStackListOrString(names: seq<string>)
    requires names != []
    requires forall k | 0 <= k < |names| :: ',' !in names[k]
    ensures NormalizeTechStack(Str(Join(names, ","))) == NormalizeTechStack(Array(seq(|names|, k requires 0 <= k < |names| => Str(names[k]))))
  {
    SplitJoin(names, ',');
  }

  lemma SplitSpacedStep(x: string, tail: string)
    requires ',' !in x
    ensures var q := Split(tail, ',');
      Split(x + ", " + tail, ',') == [x] + ([" " + q[0]] + q[1..])
  {
    assert x + ", " + tail == x + [','] + (" " + tail);
    SplitFirst(x, " " + tail, ',');
    SplitFreePrefix(" ", tail, ',');
  }

  /** The names with a space before each but the first. */
  function Spaced(names: seq<string>): seq<string>
    requires names != []
  {
    [names[0]] + seq(|names| - 1, k requires 0 <= k < |names| - 1 => " " + names[k + 1])
  }

  /** Splitting names joined by ", " at the commas gives the names, the later ones after a space. */
  lemma {:induction false} SplitSpacedJoin(names: seq<string>)
    requires names != []
    requires forall k | 0 <= k < |names| :: ',' !in names[k]
    ensures Split(Join(names, ", "), ',') == Spaced(names)
    decreases |names|
  {
    if |names| == 1 {
      SplitNone(names[0], ',');
    } else {
      var rest := names[1..];
      var tail := Join(rest, ", ");
      SplitSpacedJoin(rest);
      var q := Spaced(rest);
      SplitSpacedStep(names[0], tail);
      var later := seq(|names| - 1, k requires 0 <= k < |names| - 1 => " " + names[k + 1]);
      forall k | 0 <= k < |names| - 1 ensures ([" " + q[0]] + q[1..])[k] == later[k] {
        if k > 0 {
          assert q[k] == " " + rest[k];
        }
      }
      assert [" " + q[0]] + q[1..] == later;
    }
  }

  /** Trimming the spaced names gives the names back. */
  lemma TrimSpaced(names: seq<string>)
    requires names != []
    requires forall k | 0 <= k < |names| :: Trimmed(names[k])
    ensures seq(|names|, k requires 0 <= k < |names| => Trim(Spaced(names)[k])) == names
  {
    var pieces := Spaced(names);
    assert AllSpace(" ");
    forall k | 0 <= k < |names| ensures Trim(pieces[k]) == names[k] {
      TrimOfTrimmed(names[k]);
      if k > 0 {
        TrimSpacePrefix(" ", names[k]);
      }
    }
  }

  /** Names written as the model usually writes them, "Go, Rust, C++", normalise to the names. */
  lemma TechStackCommaSpace(names: seq<string>)
    requires names != []
    requires forall k | 0 <= k < |names| :: ',' !in names[k] && Trimmed(names[k])
    ensures NormalizeTechStack(Str(Join(names, ", "))) == names
  {
    SplitSpacedJoin(names);
    TrimSpaced(names);
  }

  /** `title`: the trimmed rendering of a truthy value, else the default title. */
  function NormalizeTitle(v: Value): (r: string)
    ensures Trimmed(r)
    ensures !Truthy(v) ==> r == DefaultTitle
    ensures Truthy(v) ==> r == TrimmedString(v)
    ensures v.Str? && v.s != "" ==> r == Trim(v.s)
  {
    assert DefaultTitle[0] == 'A' && DefaultTitle[|DefaultTitle| - 1] == 'm';
    if Truthy(v) then TrimmedString(v) else DefaultTitle
  }

  /** `problem`: the trimmed rendering of a truthy value, else the first 600 characters of the conversation. */
  function NormalizeProblem(v: Value, convoText: string): (r: string)
    ensures Truthy(v) ==> Trimmed(r) && r == TrimmedString(v)
    ensures !Truthy(v) ==> r <= convoText
    ensures !Truthy(v) ==> |r| == if |convoText| < ProblemFallbackLength then |convoText| else ProblemFallbackLength
  {
    if Truthy(v) then TrimmedString(v) else Take(convoText, ProblemFallbackLength)
  }

  /** `mermaid`: the trimmed rendering of a truthy value, else empty. */
  function NormalizeMermaid(v: Value): (r: string)
    ensures Trimmed(r)
    ensures !Truthy(v) ==> r == ""
    ensures Truthy(v) ==> r == TrimmedString(v)
  {
    if Truthy(v) then TrimmedString(v) else ""
  }

  /**
   * The result object built from a parsed payload: always the four fields,
   * each normalised on its own; reading a field of `null` throws.
   */
  function Normalize(parsed: Value, convoText: string): (r: Result<Architecture, ExtractError>)
    ensures r.Failure? <==> IsNullish(parsed)
    ensures r.Failure? ==> r.error == NullPayload
    ensures r.Success? ==> r.value.title == NormalizeTitle(Get(parsed, "title"))
    ensures r.Success? ==> r.value.problem == NormalizeProblem(Get(parsed, "problem"), convoText)
    ensures r.Success? ==> r.value.techStack == NormalizeTechStack(Get(parsed, "tech_stack"))
    ensures r.Success? ==> r.value.mermaid == NormalizeMermaid(Get(parsed, "mermaid"))
    ensures r.Success? ==> Trimmed(r.value.title) && Trimmed(r.value.mermaid)
  {
    if IsNullish(parsed) then Failure(NullPayload)
    else
      Success(Architecture(
        NormalizeTitle(Get(parsed, "title")),
        NormalizeProblem(Get(parsed, "problem"), convoText),
        NormalizeTechStack(Get(parsed, "tech_stack")),
        NormalizeMermaid(Get(parsed, "mermaid"))))
  }

  /** An empty object normalises to the defaults throughout. */
  lemma EmptyPayloadDefaults(convoText: string)
    ensures Normalize(Object(map[]), convoText)
         == Success(Architecture(DefaultTitle, Take(convoText, ProblemFallbackLength), [], ""))
  {
  }

  // ---------------------------------------------------------------------
  // The whole pipeline

  function ExtractArchitecture(raw: string, convoText: string, parse: Parser): Result<Architecture, ExtractError>
  {
    match Candidate(raw)
    case Failure(e) => Failure(e)
    case Success(candidate) =>
      match ParsePayload(candidate, parse).outcome
      case Failure(e) => Failure(e)
      case Success(parsed) => Normalize(parsed, convoText)
  }

  /**
   * A reply with no `{` before a `}` (after marker slicing) fails with
   * NoJsonOutput whatever the parser does; any other reply hands its first
   * brace span, and only that, to the parser.
   */
  lemma NoSpanMeansNoJsonOutput(raw: string, convoText: string, parse: Parser)
    ensures !HasBraceSpan(SliceMarkers(raw)) <==> ExtractArchitecture(raw, convoText, parse) == Failure(NoJsonOutput)
  {
    CandidateSpec(raw);
    if HasBraceSpan(SliceMarkers(raw)) {
      var c := Candidate(raw).value;
      var run := ParsePayload(c, parse);
      if run.outcome.Success? {
        var parsed := run.outcome.value;
        assert Normalize(parsed, convoText).Failure? ==> Normalize(parsed, convoText).error == NullPayload;
      }
    }
  }

  /** A text without `%` holds no marker. */
  lemma PercentFreeHasNoMarker(s: string, marker: string)
    requires '%' !in s && marker != [] && marker[0] == '%'
    ensures !Contains(s, marker)
  {
    forall k | 0 <= k <= |s|
      ensures !StartsAt(s, marker, k)
    {
      if k + |marker| <= |s| {
        assert s[k..k + |marker|][0] == s[k];
        assert s[k] in s;
      }
    }
  }

  /** The markers begin with `%` and hold no closing brace. */
  lemma MarkerShapes()
    ensures StartMarker != [] && StartMarker[0] == '%' && '}' !in StartMarker
    ensures EndMarker != [] && EndMarker[0] == '%' && '}' !in EndMarker
  {
  }

  /** An occurrence in an infix is an occurrence in the whole text. */
  lemma InfixContains(a: string, p: string, b: string, pat: string)
    ensures Contains(p, pat) ==> Contains(a + p + b, pat)
  {
    if Contains(p, pat) {
      var k :| 0 <= k <= |p| && StartsAt(p, pat, k);
      assert (a + p + b)[|a|..|a| + |p|] == p;
      OccurrenceInInfix(a + p + b, p, |a|, pat, k);
    }
  }

  /**
   * No occurrence of a pattern without `}` begins inside a text that ends
   * with `}` and does not hold it, whatever follows the text.
   */
  lemma NoMarkerStartsInPayload(p: string, rest: string, m: string)
    requires p != [] && p[|p| - 1] == '}'
    requires '}' !in m && !Contains(p, m)
    ensures forall k | 0 <= k < |p| :: !StartsAt(p + rest, m, k)
  {
    forall k | 0 <= k < |p|
      ensures !StartsAt(p + rest, m, k)
    {
      if k + |m| <= |p| {
        StartsAtPrefix(p, rest, m, k);
      } else if k + |m| <= |p + rest| {
        var i := |p| - 1 - k;
        assert (p + rest)[k..k + |m|][i] == '}';
        assert m[i] in m;
      }
    }
  }

  /** A marker-free payload stays so between texts without `%`. */
  lemma MarkerFreeAround(a: string, p: string, b: string, m: string)
    requires m != [] && m[0] == '%' && '}' !in m
    requires '%' !in a && '%' !in b
    requires p != [] && p[|p| - 1] == '}' && !Contains(p, m)
    ensures !Contains(a + p + b, m)
  {
    PercentFreeHasNoMarker(b, m);
    NoMarkerStartsInPayload(p, b, m);
    forall k | |p| <= k <= |p + b|
      ensures !StartsAt(p + b, m, k)
    {
      StartsAtShift(p, b, m, k);
    }
    FreeConcat(a, p + b, m);
    assert a + p + b == a + (p + b);
  }

  /**
   * A payload that does not carry both markers (a mermaid `%%` comment is
   * fine) is its own marker slice and its own brace span.
   */
  lemma BarePayload(p: string)
    requires p != [] && p[0] == '{' && p[|p| - 1] == '}'
    requires !(Contains(p, StartMarker) && Contains(p, EndMarker))
    ensures SliceMarkers(p) == p
    ensures Candidate(p) == Success(p)
  {
    SpanOfProse("", p, "");
    assert "" + p + "" == p;
  }

  /** The brace span of a payload with prose around it is the payload. */
  lemma SpanOfProse(a: string, p: string, b: string)
    requires p != [] && p[0] == '{' && p[|p| - 1] == '}'
    requires '{' !in a && '}' !in b
    ensures BraceSpan(a + p + b) == Some(p)
  {
    var t := a + p + b;
    var i, j := |a|, |a| + |p| - 1;
    assert t[i] == '{' && t[j] == '}';
    var first := FirstIndex(t, '{', 0);
    var last := LastIndex(t, '}', |t|);
    assert first == Some(i);
    assert last == Some(j);
    assert t[i..j + 1] == p;
  }

  /**
   * Prose around a payload is irrelevant: a reply that is a payload with
   * text before it that has no `{` and text after it that has no `}` (and
   * that does not carry both markers) extracts exactly as the bare payload.
   */
  lemma ProseIsIgnored(a: string, p: string, b: string, convoText: string, parse: Parser)
    requires p != [] && p[0] == '{' && p[|p| - 1] == '}'
    requires '{' !in a && '}' !in b
    requires !(Contains(a + p + b, StartMarker) && Contains(a + p + b, EndMarker))
    ensures ExtractArchitecture(a + p + b, convoText, parse) == ExtractArchitecture(p, convoText, parse)
  {
    InfixContains(a, p, b, StartMarker);
    InfixContains(a, p, b, EndMarker);
    BarePayload(p);
    SpanOfProse(a, p, b);
    assert Candidate(a + p + b) == Success(p);
  }

  /** A reply that is a payload between code fences extracts as the bare payload. */
  lemma FencedPayloadIsBare(p: string, convoText: string, parse: Parser)
    requires p != [] && p[0] == '{' && p[|p| - 1] == '}'
    requires !(Contains(p, StartMarker) && Contains(p, EndMarker))
    ensures ExtractArchitecture("```json\n" + p + "\n```", convoText, parse) == ExtractArchitecture(p, convoText, parse)
  {
    var open, close := "```json\n", "\n```";
    assert '%' !in open && '%' !in close && '{' !in open && '}' !in close;
    MarkerShapes();
    if !Contains(p, StartMarker) {
      MarkerFreeAround(open, p, close, StartMarker);
    } else {
      MarkerFreeAround(open, p, close, EndMarker);
    }
    ProseIsIgnored(open, p, close, convoText, parse);
  }

  /**
   * A payload between the markers extracts as the bare payload when the
   * start marker after `pre` is the first one and the payload holds neither
   * marker; `post` may hold anything, even further markers.  When a start
   * marker begins inside the end marker the slice is cut short, to the
   * payload and part of the end marker, but its brace span is still the
   * payload.
   */
  lemma MarkedPayloadIsBare(pre: string, p: string, post: string, convoText: string, parse: Parser)
    requires p != [] && p[0] == '{' && p[|p| - 1] == '}'
    requires !Contains(p, StartMarker) && !Contains(p, EndMarker)
    requires forall k | 0 <= k < |pre| :: !StartsAt(pre + StartMarker, StartMarker, k)
    ensures ExtractArchitecture(pre + StartMarker + p + EndMarker + post, convoText, parse)
         == ExtractArchitecture(p, convoText, parse)
  {
    MarkedSpan(pre, p, post);
    BarePayload(p);
  }

  /** The brace span of the marker slice of a marked payload is the payload, whatever follows the end marker. */
  lemma MarkedSpan(pre: string, p: string, post: string)
    requires p != [] && p[0] == '{' && p[|p| - 1] == '}'
    requires !Contains(p, StartMarker) && !Contains(p, EndMarker)
    requires forall k | 0 <= k < |pre| :: !StartsAt(pre + StartMarker, StartMarker, k)
    ensures BraceSpan(SliceMarkers(pre + StartMarker + p + EndMarker + post)) == Some(p)
  {
    if forall k | 0 <= k < |EndMarker| :: !StartsAt(EndMarker + post, StartMarker, k) {
      MarkedSlice(pre, p, post);
      SpanOfProse("", p, "");
      assert "" + p + "" == p;
    } else {
      CutMarkedSlice(pre, p, post);
    }
  }

  /** A start marker that begins inside the end marker cuts the slice short, but not its brace span. */
  lemma CutMarkedSlice(pre: string, p: string, post: string)
    requires p != [] && p[0] == '{' && p[|p| - 1] == '}'
    requires !Contains(p, StartMarker) && !Contains(p, EndMarker)
    requires forall k | 0 <= k < |pre| :: !StartsAt(pre + StartMarker, StartMarker, k)
    requires exists k | 0 <= k < |EndMarker| :: StartsAt(EndMarker + post, StartMarker, k)
    ensures BraceSpan(SliceMarkers(pre + StartMarker + p + EndMarker + post)) == Some(p)
  {
    var t := pre + StartMarker + p + EndMarker + post;
    MarkerShapes();
    var seg := p + EndMarker + post;
    assert t == pre + StartMarker + seg;
    AfterStartMarker(pre, seg);
    CutInsideEnd(p, EndMarker, post, StartMarker);
    assert Contains(t, EndMarker) by {
      var at := |pre| + |StartMarker| + |p|;
      assert t[at..at + |EndMarker|] == EndMarker;
      assert StartsAt(t, EndMarker, at);
    }
  }

  /**
   * When a start pattern begins inside the end pattern behind a payload
   * free of both (ending in `}`, which neither pattern holds), the text up
   * to the first start pattern is the payload and a proper prefix of the
   * end pattern: no end pattern is found in it, and the brace span of its
   * trimmed form is the payload.
   */
  lemma CutInsideEnd(p: string, end: string, post: string, start: string)
    requires p != [] && p[0] == '{' && p[|p| - 1] == '}'
    requires '}' !in start && '}' !in end && !Contains(p, start) && !Contains(p, end)
    requires exists k | 0 <= k < |end| :: StartsAt(end + post, start, k)
    ensures BraceSpan(Trim(BeforeFirst(BeforeFirst(p + end + post, start), end))) == Some(p)
  {
    var seg := p + end + post;
    assert seg == p + (end + post);
    var k0 :| 0 <= k0 < |end| && StartsAt(end + post, start, k0);
    StartsAtShift(p, end + post, start, |p| + k0);
    NoMarkerStartsInPayload(p, end + post, start);
    var j := IndexOf(seg, start, 0).value;
    assert |p| <= j <= |p| + k0;
    var e := end[..j - |p|];
    var u := seg[..j];
    assert u == p + e;
    assert '}' !in e by {
      forall i | 0 <= i < |e|
        ensures e[i] != '}'
      {
        assert e[i] == end[i];
      }
    }
    NoMarkerStartsInPayload(p, e, end);
    assert IndexOf(u, end, 0).None?;
    SpanOfTrimmedTail(p, e);
  }

  /** Trimming a payload followed by `}`-free text keeps the payload as its brace span. */
  lemma SpanOfTrimmedTail(p: string, e: string)
    requires p != [] && p[0] == '{' && p[|p| - 1] == '}'
    requires '}' !in e
    ensures BraceSpan(Trim(p + e)) == Some(p)
  {
    var s := p + e;
    TrimStartOfTrimmed(s);
    TrimEndStopsEarly(p, e);
    var e' := TrimEnd(e);
    TrimEndIsPrefix(e);
    assert Trim(s) == "" + p + e';
    assert '}' !in e' by {
      forall n | 0 <= n < |e'|
        ensures e'[n] != '}'
      {
        assert e'[n] == e[n];
      }
    }
    SpanOfProse("", p, e');
  }

  /** Marker slicing of a marked payload yields the payload. */
  lemma MarkedSlice(pre: string, p: string, post: string)
    requires p != [] && p[0] == '{' && p[|p| - 1] == '}'
    requires !Contains(p, StartMarker) && !Contains(p, EndMarker)
    requires forall k | 0 <= k < |pre| :: !StartsAt(pre + StartMarker, StartMarker, k)
    requires forall k | 0 <= k < |EndMarker| :: !StartsAt(EndMarker + post, StartMarker, k)
    ensures SliceMarkers(pre + StartMarker + p + EndMarker + post) == p
  {
    MarkerShapes();
    var seg := p + EndMarker + post;
    var n := |p| + |EndMarker|;
    var t := pre + StartMarker + seg;
    assert t == pre + StartMarker + p + EndMarker + post;
    NoStartBeforeRest(p, EndMarker, post, StartMarker);
    AfterStartMarker(pre, seg);
    BeforeFirstPrefix(seg, StartMarker, n);
    var u := AfterFirst(t, StartMarker);
    assert seg[..n] == p + EndMarker;
    assert u == p + EndMarker + u[n..];
    FirstBehindPayload(p, EndMarker);
    BeforeEndMarker(p, u[n..]);
    TrimOfTrimmed(p);
    assert Contains(t, EndMarker) by {
      var after := |pre| + |StartMarker|;
      assert t[after + |p|..after + |p| + |EndMarker|] == EndMarker;
      assert StartsAt(t, EndMarker, after + |p|);
    }
  }

  /**
   * No start pattern begins inside a payload free of it (ending in `}`,
   * which the pattern lacks), nor inside the end pattern behind it.
   */
  lemma NoStartBeforeRest(p: string, end: string, post: string, start: string)
    requires p != [] && p[|p| - 1] == '}'
    requires '}' !in start && !Contains(p, start)
    requires forall k | 0 <= k < |end| :: !StartsAt(end + post, start, k)
    ensures forall k | 0 <= k < |p| + |end| :: !StartsAt(p + end + post, start, k)
  {
    NoMarkerStartsInPayload(p, end + post, start);
    assert p + (end + post) == p + end + post;
    forall k | |p| <= k < |p| + |end|
      ensures !StartsAt(p + end + post, start, k)
    {
      StartsAtShift(p, end + post, start, k);
    }
  }

  /** In a payload free of the pattern and ending in `}`, the first occurrence behind it is the pattern appended. */
  lemma FirstBehindPayload(p: string, m: string)
    requires p != [] && p[|p| - 1] == '}'
    requires '}' !in m && !Contains(p, m)
    ensures IndexOf(p + m, m, 0) == Some(|p|)
  {
    NoMarkerStartsInPayload(p, m, m);
    assert (p + m)[|p|..|p| + |m|] == m;
    IndexOfAt(p + m, m, 0, |p|);
  }

  /** Behind the first start marker, the reply's second field is the rest up to the next start marker. */
  lemma AfterStartMarker(pre: string, seg: string)
    requires forall k | 0 <= k < |pre| :: !StartsAt(pre + StartMarker, StartMarker, k)
    ensures Contains(pre + StartMarker + seg, StartMarker)
    ensures AfterFirst(pre + StartMarker + seg, StartMarker) == BeforeFirst(seg, StartMarker)
  {
    AfterFirstBehind(pre, StartMarker, seg);
  }

  lemma AfterFirstBehind(pre: string, sep: string, seg: string)
    requires forall k | 0 <= k < |pre| :: !StartsAt(pre + sep, sep, k)
    ensures Contains(pre + sep + seg, sep)
    ensures AfterFirst(pre + sep + seg, sep) == BeforeFirst(seg, sep)
  {
    FirstAtEnd(pre, sep);
    IndexOfExtends(pre + sep, seg, sep);
    assert StartsAt(pre + sep + seg, sep, |pre|);
    assert (pre + sep + seg)[|pre| + |sep|..] == seg;
  }

  /** An occurrence appended to a text in which none begins is the first one. */
  lemma FirstAtEnd(pre: string, pat: string)
    requires forall k | 0 <= k < |pre| :: !StartsAt(pre + pat, pat, k)
    ensures IndexOf(pre + pat, pat, 0) == Some(|pre|)
  {
    assert (pre + pat)[|pre|..|pre| + |pat|] == pat;
    IndexOfAt(pre + pat, pat, 0, |pre|);
  }

  /** What precedes the first end marker, when it stands right behind `p`, is `p`. */
  lemma BeforeEndMarker(p: string, rest: string)
    requires IndexOf(p + EndMarker, EndMarker, 0) == Some(|p|)
    ensures BeforeFirst(p + EndMarker + rest, EndMarker) == p
  {
    BeforeFirstBehind(p, EndMarker, rest);
  }

  lemma BeforeFirstBehind(p: string, sep: string, rest: string)
    requires IndexOf(p + sep, sep, 0) == Some(|p|)
    ensures BeforeFirst(p + sep + rest, sep) == p
  {
    IndexOfExtends(p + sep, rest, sep);
    assert (p + sep + rest)[..|p|] == p;
  }
}
