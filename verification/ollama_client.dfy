/** The local vision-model client of `src/services/ollamaClient.ts`: turning the
    model's free-text answer into a file-name slug, the one-minute availability
    cache, and the mapping of a generate request's outcome to a name or an error.
    HTTP is not performed: the clock, the probe's outcome and the generate
    request's outcome are parameters. */
module OllamaClient {
  import opened Wrappers
  import opened Text

  // ---------------------------------------------------------------------------
  // cleanFileName
  // ---------------------------------------------------------------------------

  predicate IsQuote(c: char) { c == '"' || c == '\'' || c == '`' }
  predicate NotQuote(c: char) { !IsQuote(c) }

  /** `[\w-]`: what survives the character filter. */
  predicate IsSlugChar(c: char) { IsWordChar(c) || c == '-' }

  /** A cleaned name: lower-case ASCII letters, digits, `_` and isolated inner hyphens;
      possibly empty. */
  predicate IsCleanSlug(r: string)
  {
    && (forall c :: c in r ==> IsAsciiLower(c) || IsDigit(c) || c == '_' || c == '-')
    && NoDouble(r, '-')
    && (r == [] || (r[0] != '-' && r[|r| - 1] != '-'))
  }

  /** The rewrite stages before lower-casing, in source order: trim, drop quotes,
      whitespace runs to `-`, drop everything outside `[\w-]`, hyphen runs to `-`,
      strip end hyphens. */
  function Slug(response: string): (f: string)
    ensures forall c :: c in f ==> IsSlugChar(c)
    ensures NoDouble(f, '-')
    ensures f == [] || (f[0] != '-' && f[|f| - 1] != '-')
  {
    var a := Trim(response);
    var b := Keep(a, NotQuote);
    var c := ReplaceRuns(b, IsSpace, '-');
    var d := Keep(c, IsSlugChar);
    var e := ReplaceRuns(d, IsHyphen, '-');
    KeepMembers(c, IsSlugChar);
    ReplaceRunsMembers(d, IsHyphen, '-');
    CollapsedHasNoDouble(d);
    StripNoDouble(e, '-');
    StripChar(e, '-')
  }

  /** `cleanFileName`. Only ASCII is left when lower-casing, so ASCII case mapping is
      the whole of `toLowerCase` here. */
  function CleanFileName(response: string): (r: string)
    ensures IsCleanSlug(r)
  {
    var f := Slug(response);
    LowerSlugIsClean(f);
    ToLowerAscii(f)
  }

  /** Lower-casing a slug gives a clean slug: letters become lower case and the
      hyphens stay where they were. */
  lemma LowerSlugIsClean(f: string)
    requires forall c :: c in f ==> IsSlugChar(c)
    requires NoDouble(f, '-') && (f == [] || (f[0] != '-' && f[|f| - 1] != '-'))
    ensures IsCleanSlug(ToLowerAscii(f))
  {
    var r := ToLowerAscii(f);
    assert forall i :: 0 <= i < |r| ==> (r[i] == '-' <==> f[i] == '-');
    forall c | c in r ensures IsAsciiLower(c) || IsDigit(c) || c == '_' || c == '-' {
      var i :| 0 <= i < |r| && r[i] == c;
      assert f[i] in f;
    }
  }

  /** Lower-casing commutes with keeping the word characters. */
  lemma {:induction false} KeepWordLower(s: string)
    ensures Keep(ToLowerAscii(s), IsWordChar) == ToLowerAscii(Keep(s, IsWordChar))
    decreases |s|
  {
    if s != [] {
      KeepWordLower(s[1..]);
      assert ToLowerAscii(s) == [ToLowerChar(s[0])] + ToLowerAscii(s[1..]);
      assert ToLowerAscii(s)[1..] == ToLowerAscii(s[1..]);
      if IsWordChar(s[0]) {
        assert ToLowerAscii([s[0]] + Keep(s[1..], IsWordChar))
               == [ToLowerChar(s[0])] + ToLowerAscii(Keep(s[1..], IsWordChar));
      }
    }
  }

  /** Contents of the cleaned name: the word characters of the answer, lower-cased and
      in order; everything else the cleaner adds or keeps is a hyphen. */
  lemma CleanKeepsWordChars(response: string)
    ensures Keep(CleanFileName(response), IsWordChar) == ToLowerAscii(Keep(response, IsWordChar))
  {
    var f := Slug(response);
    SlugKeepsWordChars(response);
    KeepWordLower(f);
  }

  lemma SlugKeepsWordChars(response: string)
    ensures Keep(Slug(response), IsWordChar) == Keep(response, IsWordChar)
  {
    var a := Trim(response);
    var b := Keep(a, NotQuote);
    var c := ReplaceRuns(b, IsSpace, '-');
    var d := Keep(c, IsSlugChar);
    var e := ReplaceRuns(d, IsHyphen, '-');
    WordCharClasses();
    KeepTrim(response, IsWordChar);
    KeepKeep(a, IsWordChar, NotQuote);
    KeepReplaceRuns(b, IsSpace, '-', IsWordChar);
    KeepKeep(c, IsWordChar, IsSlugChar);
    KeepReplaceRuns(d, IsHyphen, '-', IsWordChar);
    KeepStrip(e, '-', IsWordChar);
  }

  /** Word characters are neither whitespace, quotes nor hyphens. */
  lemma WordCharClasses()
    ensures forall c :: IsSpace(c) ==> !IsWordChar(c)
    ensures forall c :: IsWordChar(c) ==> NotQuote(c) && IsSlugChar(c) && !IsHyphen(c)
  {
  }

  /** A cleaned name with no word character is empty. */
  lemma CleanSlugWithoutWords(r: string)
    requires IsCleanSlug(r) && Keep(r, IsWordChar) == []
    ensures r == []
  {
  }

  /** An answer without ASCII letters, digits or `_` cleans to nothing. */
  lemma CleanWithoutWords(response: string)
    requires forall i :: 0 <= i < |response| ==> !IsWordChar(response[i])
    ensures CleanFileName(response) == []
  {
    KeepNone(response, IsWordChar);
    CleanKeepsWordChars(response);
    CleanSlugWithoutWords(CleanFileName(response));
  }

  /** A clean slug is a fixed point of the cleaner. */
  lemma CleanFixedPoint(r: string)
    requires IsCleanSlug(r)
    ensures CleanFileName(r) == r
  {
    SlugFixedPoint(r);
    LowerCleanSlug(r);
  }

  /** A clean slug is already lower case. */
  lemma LowerCleanSlug(r: string)
    requires IsCleanSlug(r)
    ensures ToLowerAscii(r) == r
  {
    var l := ToLowerAscii(r);
    forall i | 0 <= i < |r| ensures l[i] == r[i] {
      assert r[i] in r;
    }
  }

  /** The stages of `Slug`, named one by one. */
  lemma SlugStages(response: string, a: string, b: string, c: string, d: string, e: string)
    requires a == Trim(response) && b == Keep(a, NotQuote) && c == ReplaceRuns(b, IsSpace, '-')
    requires d == Keep(c, IsSlugChar) && e == ReplaceRuns(d, IsHyphen, '-')
    ensures Slug(response) == StripChar(e, '-')
  {
  }

  /** Every character of a clean slug passes the quote, whitespace and `[\w-]` stages. */
  lemma CleanSlugChars(r: string)
    requires IsCleanSlug(r)
    ensures forall i :: 0 <= i < |r| ==> !IsSpace(r[i]) && NotQuote(r[i]) && IsSlugChar(r[i])
  {
    forall i | 0 <= i < |r| ensures !IsSpace(r[i]) && NotQuote(r[i]) && IsSlugChar(r[i]) {
      assert r[i] in r;
    }
  }

  lemma SlugFixedPoint(r: string)
    requires IsCleanSlug(r)
    ensures Slug(r) == r
  {
    CleanSlugChars(r);
    SlugIdentity(r);
  }

  /** A string that passes every character stage and has no hyphen to collapse or
      strip is left alone. */
  lemma SlugIdentity(r: string)
    requires forall i :: 0 <= i < |r| ==> !IsSpace(r[i]) && NotQuote(r[i]) && IsSlugChar(r[i])
    requires NoDouble(r, '-') && (r == [] || (r[0] != '-' && r[|r| - 1] != '-'))
    ensures Slug(r) == r
  {
    TrimIdentity(r);
    KeepAll(r, NotQuote);
    ReplaceRunsIdentity(r, IsSpace, '-');
    KeepAll(r, IsSlugChar);
    CollapseIdentity(r);
    StripCharIdentity(r, '-');
    SlugStages(r, r, r, r, r, r);
  }

  /** `cleanFileName` is idempotent. */
  lemma CleanIdempotent(response: string)
    ensures CleanFileName(CleanFileName(response)) == CleanFileName(response)
  {
    CleanFixedPoint(CleanFileName(response));
  }

  predicate AllWordChars(w: string)
  {
    forall i :: 0 <= i < |w| ==> IsWordChar(w[i])
  }

  /** Two words separated by whitespace and followed by punctuation clean to the two
      words, lower-cased, joined by one hyphen. */
  lemma CleanTwoWords(w1: string, gap: string, w2: string, tail: string)
    requires w1 != [] && w2 != [] && gap != [] && AllWordChars(w1) && AllWordChars(w2)
    requires forall i :: 0 <= i < |gap| ==> IsSpace(gap[i])
    requires forall i :: 0 <= i < |tail| ==> IsJunk(tail[i])
    ensures CleanFileName(w1 + gap + w2 + tail) == ToLowerAscii(w1) + "-" + ToLowerAscii(w2)
  {
    SlugTwoWords(w1, gap, w2, tail);
    ToLowerAppend(w1 + "-", w2);
    ToLowerAppend(w1, "-");
    assert ToLowerAscii("-") == "-";
  }

  /** A character that every stage of the cleaner drops: punctuation and the like. */
  predicate IsJunk(c: char)
  {
    !IsSlugChar(c) && !IsSpace(c) && !IsQuote(c)
  }

  lemma SlugTwoWords(w1: string, gap: string, w2: string, tail: string)
    requires w1 != [] && w2 != [] && gap != [] && AllWordChars(w1) && AllWordChars(w2)
    requires forall i :: 0 <= i < |gap| ==> IsSpace(gap[i])
    requires forall i :: 0 <= i < |tail| ==> IsJunk(tail[i])
    ensures Slug(w1 + gap + w2 + tail) == w1 + "-" + w2
  {
    var s := w1 + gap + w2 + tail;
    WordCharClasses();
    TwoWordsTrim(w1, gap, w2, tail);
    TwoWordsQuotes(w1, gap, w2, tail);
    TwoWordsRuns(w1, gap, w2, tail);
    TwoWordsFilter(w1, w2, tail);
    TwoWordsCollapse(w1, w2);
  }

  lemma TwoWordsTrim(w1: string, gap: string, w2: string, tail: string)
    requires w1 != [] && w2 != [] && AllWordChars(w1) && AllWordChars(w2)
    requires forall i :: 0 <= i < |tail| ==> IsJunk(tail[i])
    ensures Trim(w1 + gap + w2 + tail) == w1 + gap + w2 + tail
  {
    var s := w1 + gap + w2 + tail;
    assert s[0] == w1[0] && IsWordChar(w1[0]);
    if tail == [] {
      assert s[|s| - 1] == w2[|w2| - 1] && IsWordChar(w2[|w2| - 1]);
    } else {
      assert s[|s| - 1] == tail[|tail| - 1] && IsJunk(tail[|tail| - 1]);
    }
    TrimIdentity(s);
  }

  lemma TwoWordsQuotes(w1: string, gap: string, w2: string, tail: string)
    requires AllWordChars(w1) && AllWordChars(w2)
    requires forall i :: 0 <= i < |gap| ==> IsSpace(gap[i])
    requires forall i :: 0 <= i < |tail| ==> IsJunk(tail[i])
    ensures Keep(w1 + gap + w2 + tail, NotQuote) == w1 + gap + w2 + tail
  {
    WordChars(w1);
    WordChars(w2);
    assert forall i :: 0 <= i < |gap| ==> NotQuote(gap[i]);
    NoQuotesAppend(w1, gap);
    NoQuotesAppend(w1 + gap, w2);
    NoQuotesAppend(w1 + gap + w2, tail);
    KeepAll(w1 + gap + w2 + tail, NotQuote);
  }

  /** Two strings without quotes make one without quotes. */
  lemma NoQuotesAppend(a: string, b: string)
    requires forall i :: 0 <= i < |a| ==> NotQuote(a[i])
    requires forall i :: 0 <= i < |b| ==> NotQuote(b[i])
    ensures forall i :: 0 <= i < |a + b| ==> NotQuote((a + b)[i])
  {
    forall i | |a| <= i < |a + b| ensures NotQuote((a + b)[i]) {
      assert (a + b)[i] == b[i - |a|];
    }
  }

  /** Word characters pass the whitespace, quote and `[\w-]` stages. */
  lemma WordChars(w: string)
    requires AllWordChars(w)
    ensures forall i :: 0 <= i < |w| ==> !IsSpace(w[i]) && NotQuote(w[i]) && IsSlugChar(w[i]) && w[i] != '-'
  {
    forall i | 0 <= i < |w| ensures !IsSpace(w[i]) && NotQuote(w[i]) && IsSlugChar(w[i]) && w[i] != '-' {
      assert IsWordChar(w[i]);
    }
  }

  /** A word followed by junk contains no whitespace. */
  lemma WordThenJunkNoSpace(w: string, tail: string)
    requires AllWordChars(w)
    requires forall i :: 0 <= i < |tail| ==> IsJunk(tail[i])
    ensures forall i :: 0 <= i < |w + tail| ==> !IsSpace((w + tail)[i])
  {
    WordChars(w);
    forall i | 0 <= i < |w + tail| ensures !IsSpace((w + tail)[i]) {
      if i >= |w| {
        assert (w + tail)[i] == tail[i - |w|];
      }
    }
  }

  /** A whitespace run followed by a non-empty text without whitespace becomes one `-`. */
  lemma RunThenText(gap: string, rest: string)
    requires gap != [] && rest != []
    requires forall i :: 0 <= i < |gap| ==> IsSpace(gap[i])
    requires forall i :: 0 <= i < |rest| ==> !IsSpace(rest[i])
    ensures ReplaceRuns(gap + rest, IsSpace, '-') == "-" + rest
  {
    ReplaceRunsRun(gap, rest, IsSpace, '-');
    ReplaceRunsIdentity(rest, IsSpace, '-');
  }

  lemma TwoWordsRuns(w1: string, gap: string, w2: string, tail: string)
    requires w2 != [] && gap != [] && AllWordChars(w1) && AllWordChars(w2)
    requires forall i :: 0 <= i < |gap| ==> IsSpace(gap[i])
    requires forall i :: 0 <= i < |tail| ==> IsJunk(tail[i])
    ensures ReplaceRuns(w1 + gap + w2 + tail, IsSpace, '-') == w1 + "-" + (w2 + tail)
  {
    var rest := w2 + tail;
    assert w1 + gap + w2 + tail == w1 + (gap + rest);
    assert w1 + "-" + rest == w1 + ("-" + rest);
    WordChars(w1);
    WordThenJunkNoSpace(w2, tail);
    RunThenText(gap, rest);
    ReplaceRunsPrefix(w1, gap + rest, IsSpace, '-');
  }

  /** The `[\w-]` filter keeps a word and drops the junk after it. */
  lemma KeepWordThenJunk(w: string, tail: string)
    requires AllWordChars(w)
    requires forall i :: 0 <= i < |tail| ==> IsJunk(tail[i])
    ensures Keep(w + tail, IsSlugChar) == w
  {
    WordChars(w);
    KeepAppend(w, tail, IsSlugChar);
    KeepAll(w, IsSlugChar);
    KeepNone(tail, IsSlugChar);
    assert w + [] == w;
  }

  lemma TwoWordsFilter(w1: string, w2: string, tail: string)
    requires AllWordChars(w1) && AllWordChars(w2)
    requires forall i :: 0 <= i < |tail| ==> IsJunk(tail[i])
    ensures Keep(w1 + "-" + (w2 + tail), IsSlugChar) == w1 + "-" + w2
  {
    var x := w2 + tail;
    KeepWordThenJunk(w2, tail);
    WordChars(w1);
    KeepAll(w1, IsSlugChar);
    KeepAppend(w1 + "-", x, IsSlugChar);
    KeepAppend(w1, "-", IsSlugChar);
    assert Keep("-", IsSlugChar) == "-";
  }

  /** Two words joined by one hyphen have no doubled or end hyphen. */
  lemma JoinedWords(w1: string, w2: string)
    requires w1 != [] && w2 != [] && AllWordChars(w1) && AllWordChars(w2)
    ensures NoDouble(w1 + "-" + w2, '-')
    ensures (w1 + "-" + w2)[0] != '-' && (w1 + "-" + w2)[|w1 + "-" + w2| - 1] != '-'
  {
    var d := w1 + "-" + w2;
    WordChars(w1);
    WordChars(w2);
    forall i | 0 <= i < |d| - 1 ensures !(d[i] == '-' && d[i + 1] == '-') {
      if i < |w1| {
        assert d[i] == w1[i];
      } else {
        assert d[i + 1] == w2[i - |w1|];
      }
    }
    assert d[0] == w1[0];
    assert d[|d| - 1] == w2[|w2| - 1];
  }

  lemma TwoWordsCollapse(w1: string, w2: string)
    requires w1 != [] && w2 != [] && AllWordChars(w1) && AllWordChars(w2)
    ensures StripChar(ReplaceRuns(w1 + "-" + w2, IsHyphen, '-'), '-') == w1 + "-" + w2
  {
    var d := w1 + "-" + w2;
    JoinedWords(w1, w2);
    CollapseIdentity(d);
    StripCharIdentity(d, '-');
  }

  /** The two words of the example below, and their lower-case spellings. */
  lemma ExampleWords(w1: string, w2: string)
    requires w1 == "Login" && w2 == "Page"
    ensures AllWordChars(w1) && AllWordChars(w2)
    ensures ToLowerAscii(w1) == "login" && ToLowerAscii(w2) == "page"
  {
    assert ToLowerAscii(w1)[0] == 'l';
    assert ToLowerAscii(w2)[0] == 'p';
  }

  lemma ExampleName(a: string, b: string)
    requires a == "login" && b == "page"
    ensures a + "-" + b == "login-page"
  {
  }

  /** The model's answer "Login Page!!" becomes "login-page". */
  lemma CleanExample(s: string)
    requires s == "Login Page!!"
    ensures CleanFileName(s) == "login-page"
  {
    var w1, gap, w2, tail := "Login", " ", "Page", "!!";
    assert s == w1 + gap + w2 + tail;
    ExampleWords(w1, w2);
    CleanTwoWords(w1, gap, w2, tail);
    ExampleName(ToLowerAscii(w1), ToLowerAscii(w2));
  }

  /** A name written in Chinese characters cleans to nothing. */
  lemma CleanExampleCjk(s: string)
    requires s == "系统架构图"
    ensures CleanFileName(s) == []
  {
    CjkHasNoWordChars(s);
    CleanWithoutWords(s);
  }

  lemma CjkHasNoWordChars(s: string)
    requires s == "系统架构图"
    ensures forall i :: 0 <= i < |s| ==> !IsWordChar(s[i])
  {
    forall i | 0 <= i < |s| ensures !IsWordChar(s[i]) {
      assert s[i] >= '\U{0080}';
    }
  }

  // ---------------------------------------------------------------------------
  // Settings and the availability cache
  // ---------------------------------------------------------------------------

  const DefaultEndpoint: string := "http://localhost:11434"
  const DefaultModel: string := "llava"
  const DefaultPrompt: string := "Analyze this image and provide a short, descriptive filename (2-4 words, English, use hyphens to separate words, no file extension). For example: \"user-interface-design\" or \"system-architecture\". Only respond with the filename, nothing else."

  /** How long an availability answer is trusted, in milliseconds. */
  const CacheDuration: int := 60000

  /** The configured endpoint, model and prompt. */
  datatype Settings = Settings(endpoint: string, model: string, prompt: string)

  /** `config.get(key) || fallback`: an unset or empty setting falls back. */
  function Setting(value: Option<string>, fallback: string): (r: string)
    ensures value.Some? && value.value != [] ==> r == value.value
    ensures value.None? || value.value == [] ==> r == fallback
  {
    if value.Some? && value.value != [] then value.value else fallback
  }

  /** The last availability answer and when it was obtained (`null` and 0 initially). */
  datatype Availability = Availability(cache: Option<bool>, lastCheck: int)

  /** The client's state. */
  datatype Client = Client(settings: Settings, availability: Availability)

  /** The settings read from the configuration. */
  function ReadSettings(endpoint: Option<string>, model: Option<string>, prompt: Option<string>): (s: Settings)
    ensures s.endpoint != [] && s.model != [] && s.prompt != []
  {
    assert DefaultEndpoint[0] == 'h';
    assert DefaultModel[0] == 'l';
    assert |DefaultPrompt| > 100;
    Settings(Setting(endpoint, DefaultEndpoint), Setting(model, DefaultModel), Setting(prompt, DefaultPrompt))
  }

  /** The constructor: settings from the configuration and an empty cache. */
  function NewClient(endpoint: Option<string>, model: Option<string>, prompt: Option<string>): (c: Client)
    ensures c.availability.cache.None?
  {
    Client(ReadSettings(endpoint, model, prompt), Availability(None, 0))
  }

  /** `updateConfig`: re-read the settings and forget the cached answer. */
  function UpdateConfig(c: Client, endpoint: Option<string>, model: Option<string>, prompt: Option<string>): (d: Client)
    ensures d.availability.cache.None?
    ensures d.settings == ReadSettings(endpoint, model, prompt)
  {
    Client(ReadSettings(endpoint, model, prompt), Availability(None, 0))
  }

  /** How the `GET /api/tags` probe ended: an HTTP response (with `response.ok`), or an
      exception (network failure, the one-second abort). */
  datatype Probe = Responded(ok: bool) | ProbeFailed

  /** The answer of `isAvailable`, whether it had to probe, and the new state. */
  datatype Checked = Checked(available: bool, probed: bool, availability: Availability)

  /** The cached answer is still trusted at `now`. */
  predicate Fresh(a: Availability, now: int)
  {
    a.cache.Some? && now - a.lastCheck < CacheDuration
  }

  /** `isAvailable` at time `now`; `probe` is what the probe would return. */
  function IsAvailable(a: Availability, now: int, probe: Probe): (r: Checked)
    ensures r.probed <==> !Fresh(a, now)
    ensures !r.probed ==> r.available == a.cache.value && r.availability == a
    ensures r.probed ==> r.availability == Availability(Some(r.available), now)
    ensures r.probed ==> (r.available <==> probe == Responded(true))
  {
    if Fresh(a, now) then Checked(a.cache.value, false, a)
    else
      var ok := match probe case Responded(ok) => ok case ProbeFailed => false;
      Checked(ok, true, Availability(Some(ok), now))
  }

  /** Within a minute of a probe, `isAvailable` repeats its answer without probing,
      whatever a new probe would say. */
  lemma CacheRepeatsAnswer(a: Availability, now: int, probe: Probe, later: int, probe2: Probe)
    requires !Fresh(a, now) && later - now < CacheDuration
    ensures var first := IsAvailable(a, now, probe);
            var second := IsAvailable(first.availability, later, probe2);
            !second.probed && second.available == first.available
  {
  }

  /** A minute or more after the last probe, `isAvailable` probes again. */
  lemma StaleCacheProbes(a: Availability, now: int, probe: Probe)
    requires now - a.lastCheck >= CacheDuration
    ensures IsAvailable(a, now, probe).probed
  {
  }

  /** `updateConfig` leaves the client exactly as the constructor would build it from the
      same configuration: whatever was cached before is gone. */
  lemma UpdateConfigIsFresh(c: Client, endpoint: Option<string>, model: Option<string>, prompt: Option<string>)
    ensures UpdateConfig(c, endpoint, model, prompt) == NewClient(endpoint, model, prompt)
  {
  }

  /** After `updateConfig`, the next `isAvailable` probes, at any time. */
  lemma UpdateConfigForcesProbe(c: Client, endpoint: Option<string>, model: Option<string>,
                                prompt: Option<string>, now: int, probe: Probe)
    ensures IsAvailable(UpdateConfig(c, endpoint, model, prompt).availability, now, probe).probed
  {
  }

  // ---------------------------------------------------------------------------
  // analyzeImage
  // ---------------------------------------------------------------------------

  /** How the `POST /api/generate` request ended: aborted by the three-second timer,
      failed with another exception, or answered with a status, `response.ok`, and the
      `response` field of the JSON body. That field is `None` when it is falsy (absent,
      `null`, `false`, `0`, `NaN`) and `Some` when it is a string. A truthy field that is
      not a string makes the cleaner's `trim` call throw a `TypeError`, which is rethrown;
      such a run is described by `RequestFailed` with that error's message. */
  datatype Generated =
    | Aborted
    | RequestFailed(message: string)
    | Answered(status: int, ok: bool, response: Option<string>)

  /** `analyzeImage`: the cleaned name, or the message of the error it throws. */
  function AnalyzeImage(outcome: Generated): (r: Result<string, string>)
    ensures r.Ok? <==> outcome.Answered? && outcome.ok && outcome.response.Some?
                       && outcome.response.value != [] && CleanFileName(outcome.response.value) != []
    ensures r.Ok? ==> r.value == CleanFileName(outcome.response.value) && IsCleanSlug(r.value)
    ensures outcome == Aborted ==> r == Err("Request timeout")
    ensures outcome.RequestFailed? ==> r == Err(outcome.message)
    ensures outcome.Answered? && !outcome.ok ==> r == Err("Ollama API error: " + IntToString(outcome.status))
    ensures outcome.Answered? && outcome.ok && (outcome.response.None? || outcome.response.value == []) ==>
              r == Err("Invalid response from Ollama")
    ensures (&& outcome.Answered? && outcome.ok && outcome.response.Some? && outcome.response.value != []
             && CleanFileName(outcome.response.value) == [])
            ==> r == Err("Empty filename from Ollama")
  {
    match outcome
    case Aborted => Err("Request timeout")
    case RequestFailed(m) => Err(m)
    case Answered(status, ok, response) =>
      if !ok then Err("Ollama API error: " + IntToString(status))
      else if response.None? || response.value == [] then Err("Invalid response from Ollama")
      else
        var name := CleanFileName(response.value);
        if name == [] then Err("Empty filename from Ollama") else Ok(name)
  }

  /** A successful analysis is a non-empty fixed point of the cleaner. */
  lemma AnalyzedNameIsClean(outcome: Generated)
    requires AnalyzeImage(outcome).Ok?
    ensures var name := AnalyzeImage(outcome).value;
            name != [] && CleanFileName(name) == name
  {
    CleanFixedPoint(AnalyzeImage(outcome).value);
  }
}
