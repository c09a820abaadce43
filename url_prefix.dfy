/**
 * `parsePrefix`: the leading `/<letter>/<value>` segments of a request path
 * (`/l/en-US`, `/c/USD`, ...) are peeled off into a context map and a prefix
 * string; a locale segment whose value is not a supported language ends the
 * scan, and so does the first piece of path that is not a segment at all.
 */
module UrlPrefix {
  import opened Optional
  import opened JsString

  /** One `/<key>/<value>` segment: a lower-case ASCII letter and a non-empty run of non-`/` characters. */
  datatype Segment = Segment(key: char, value: string)

  /** The text of a segment, as it is appended to the prefix. */
  function SegmentText(seg: Segment): (r: string)
    ensures |r| == 3 + |seg.value|
  {
    "/" + [seg.key] + "/" + seg.value
  }

  /** A segment key: one of the letters the pattern's `[a-z]` accepts. */
  predicate IsKey(c: char) {
    'a' <= c <= 'z'
  }

  /** The longest prefix of `s` without a `/`: what the greedy `[^/]+` takes. */
  function Run(s: string): (r: string)
    ensures |r| <= |s| && '/' !in r && (|r| == |s| || s[|r|] == '/')
    ensures r == s[..|r|]
  {
    if s == [] || s[0] == '/' then [] else [s[0]] + Run(s[1..])
  }

  /**
   * The anchored match of `^\/([a-z])\/([^/]+)` against `s`: a slash, a
   * letter, a slash, then the longest non-empty run of characters other
   * than `/`.
   */
  function MatchSegment(s: string): (r: Option<Segment>)
    ensures r.Some? <==> |s| >= 4 && s[0] == '/' && IsKey(s[1]) && s[2] == '/' && s[3] != '/'
    ensures r.Some? ==> r.value.key == s[1] && r.value.value != [] && '/' !in r.value.value
    ensures r.Some? ==> |SegmentText(r.value)| <= |s|
  {
    if |s| >= 4 && s[0] == '/' && IsKey(s[1]) && s[2] == '/' && s[3] != '/' then
      Some(Segment(s[1], Run(s[3..])))
    else None
  }

  /** A matched segment is the text that starts `s`, followed by the end of `s` or by `/`. */
  lemma MatchedText(s: string)
    requires MatchSegment(s).Some?
    ensures var t := SegmentText(MatchSegment(s).value);
      s[..|t|] == t && (|t| == |s| || s[|t|] == '/')
  {
    var seg := MatchSegment(s).value;
    var v := Run(s[3..]);
    assert s == s[..3] + s[3..];
    assert s[..3] == "/" + [s[1]] + "/";
    assert s[..|SegmentText(seg)|] == s[..3] + s[3..][..|v|];
  }

  /** A segment that ends the scan: a locale whose value is not among the supported languages. */
  predicate Rejected(seg: Segment, languages: seq<string>) {
    seg.key == 'l' && seg.value !in languages
  }

  /** What is left of `s` once `seg`, which starts it, is consumed: the rest, or `/` when nothing is left. */
  function After(s: string, seg: Segment): (r: string)
    requires |SegmentText(seg)| <= |s|
    ensures |r| < |s| || |s| <= 1
    ensures |SegmentText(seg)| < |s| ==> r == s[|SegmentText(seg)|..]
    ensures |SegmentText(seg)| == |s| ==> r == "/"
  {
    var rest := s[|SegmentText(seg)|..];
    if rest == [] then "/" else rest
  }

  /** The scan ends on `s`: `s` does not start with a segment, or starts with a rejected one. */
  predicate Stops(s: string, languages: seq<string>) {
    MatchSegment(s).None? || Rejected(MatchSegment(s).value, languages)
  }

  /**
   * The segments the loop consumes from `s`, in order, and the remaining
   * path it stops at.
   */
  function Scan(s: string, languages: seq<string>): (r: (seq<Segment>, string))
    decreases |s|
  {
    if Stops(s, languages) then ([], s)
    else
      var seg := MatchSegment(s).value;
      var next := Scan(After(s, seg), languages);
      ([seg] + next.0, next.1)
  }

  /** The prefix: the consumed segments' texts, one after the other. */
  function PrefixOf(segs: seq<Segment>): string
  {
    if segs == [] then [] else PrefixOf(segs[..|segs| - 1]) + SegmentText(segs[|segs| - 1])
  }

  /** The context: each consumed segment sets its key, a later segment with the same key overriding. */
  function ContextOf(segs: seq<Segment>): map<char, string>
  {
    if segs == [] then map[]
    else
      var last := segs[|segs| - 1];
      ContextOf(segs[..|segs| - 1])[last.key := last.value]
  }

  /** The value `parsePrefix` returns. */
  datatype PrefixResult = PrefixResult(prefix: string, context: map<char, string>, remainingPath: string)

  /** `parsePrefix(path, languages)`, as the specification of the loop. */
  function ParsePrefixSpec(path: string, languages: seq<string>): PrefixResult
  {
    var (segs, rest) := Scan(path, languages);
    PrefixResult(PrefixOf(segs), ContextOf(segs), rest)
  }

  /** `parsePrefix`: the `while (true)` loop that strips segments until the pattern fails or a locale is rejected. */
  method ParsePrefix(path: string, languages: seq<string>) returns (result: PrefixResult)
    ensures result == ParsePrefixSpec(path, languages)
  {
    var context: map<char, string> := map[];
    var prefix := "";
    var remaining := path;
    ghost var done: seq<Segment> := [];
    assert [] + Scan(path, languages).0 == Scan(path, languages).0;
    while true
      invariant Scan(path, languages).0 == done + Scan(remaining, languages).0
      invariant Scan(path, languages).1 == Scan(remaining, languages).1
      invariant prefix == PrefixOf(done) && context == ContextOf(done)
      decreases |remaining|
    {
      var m := MatchSegment(remaining);
      if m.None? {
        break;
      }
      var key := m.value.key;
      var value := m.value.value;
      if key == 'l' && value !in languages {
        break;
      }
      ScanAdvance(path, languages, done, remaining, m.value);
      Extend(done, m.value);
      context := context[key := value];
      prefix := prefix + ("/" + [key] + "/" + value);
      var rest := remaining[|SegmentText(m.value)|..];
      remaining := if rest == [] then "/" else rest;
      done := done + [m.value];
    }
    assert done + [] == done;
    result := PrefixResult(prefix, context, remaining);
  }

  /** One more consumed segment: its text is appended to the prefix and it sets its key in the context. */
  lemma Extend(done: seq<Segment>, seg: Segment)
    ensures PrefixOf(done + [seg]) == PrefixOf(done) + SegmentText(seg)
    ensures ContextOf(done + [seg]) == ContextOf(done)[seg.key := seg.value]
  {
    assert (done + [seg])[..|done|] == done;
  }

  /** One turn of the loop: the consumed segment moves from the scan still to come to the segments done. */
  lemma ScanAdvance(path: string, languages: seq<string>, done: seq<Segment>, remaining: string, seg: Segment)
    requires Scan(path, languages).0 == done + Scan(remaining, languages).0
    requires Scan(path, languages).1 == Scan(remaining, languages).1
    requires MatchSegment(remaining) == Some(seg) && !Rejected(seg, languages)
    ensures var next := Scan(After(remaining, seg), languages);
      Scan(path, languages).0 == (done + [seg]) + next.0 && Scan(path, languages).1 == next.1
    ensures (done + [seg])[..|done|] == done
  {
    var next := Scan(After(remaining, seg), languages);
    assert (done + [seg]) + next.0 == done + ([seg] + next.0);
  }

  /**
   * The prefix and the remaining path give the path back: `path == prefix +
   * remainingPath`, except that a path consumed entirely leaves `/`.
   */
  lemma {:induction false} Reconstruct(path: string, languages: seq<string>)
    ensures var r := ParsePrefixSpec(path, languages);
      path == r.prefix + r.remainingPath || (path == r.prefix && r.remainingPath == "/")
    decreases |path|
  {
    if !Stops(path, languages) {
      var seg := MatchSegment(path).value;
      var t := SegmentText(seg);
      var next := After(path, seg);
      var (segs, rest) := Scan(next, languages);
      MatchedText(path);
      Reconstruct(next, languages);
      PrefixCons(seg, segs);
      if |t| < |path| {
        assert path == t + next;
      } else {
        assert path == t;
        assert Stops("/", languages);
      }
      JoinStep(path, t, next, PrefixOf(segs), rest);
    }
  }

  lemma JoinStep(path: string, t: string, next: string, p: string, rest: string)
    requires path == t + next || (path == t && p == [] && rest == "/")
    requires next == p + rest || (next == p && rest == "/")
    ensures path == (t + p) + rest || (path == t + p && rest == "/")
  {
    if path == t + next {
      if next == p + rest {
        assert path == (t + p) + rest;
      } else {
        assert path == t + p;
      }
    } else {
      assert t + p == t;
    }
  }

  /** Putting a segment in front of the list puts its text in front of the prefix. */
  lemma {:induction false} PrefixCons(seg: Segment, segs: seq<Segment>)
    ensures PrefixOf([seg] + segs) == SegmentText(seg) + PrefixOf(segs)
    decreases |segs|
  {
    if segs != [] {
      var init := segs[..|segs| - 1];
      assert ([seg] + segs)[..|segs|] == [seg] + init;
      PrefixCons(seg, init);
    } else {
      assert [seg] + segs == [seg];
    }
  }

  /** Every consumed locale segment names a supported language. */
  lemma {:induction false} ConsumedLocalesSupported(s: string, languages: seq<string>, i: nat)
    requires i < |Scan(s, languages).0|
    ensures var seg := Scan(s, languages).0[i]; seg.key == 'l' ==> seg.value in languages
    decreases |s|
  {
    if !Stops(s, languages) && i > 0 {
      ConsumedLocalesSupported(After(s, MatchSegment(s).value), languages, i - 1);
    }
  }

  /** A value in the context comes from one of the segments. */
  lemma {:induction false} ContextFromSegments(segs: seq<Segment>, key: char)
    requires key in ContextOf(segs)
    ensures exists i :: 0 <= i < |segs| && segs[i].key == key && segs[i].value == ContextOf(segs)[key]
  {
    var last := segs[|segs| - 1];
    if last.key != key {
      var init := segs[..|segs| - 1];
      ContextFromSegments(init, key);
      var i :| 0 <= i < |init| && init[i].key == key && init[i].value == ContextOf(init)[key];
      assert segs[i] == init[i];
    }
  }

  /** If the result's context holds a locale, that locale is one of `languages`. */
  lemma LocaleSupported(path: string, languages: seq<string>)
    ensures var r := ParsePrefixSpec(path, languages); 'l' in r.context ==> r.context['l'] in languages
  {
    var segs := Scan(path, languages).0;
    if 'l' in ContextOf(segs) {
      ContextFromSegments(segs, 'l');
      var i :| 0 <= i < |segs| && segs[i].key == 'l' && segs[i].value == ContextOf(segs)['l'];
      ConsumedLocalesSupported(path, languages, i);
    }
  }

  /** The scan stops only where it must: the remaining path starts with no segment, or with a rejected one. */
  lemma {:induction false} ScanStops(s: string, languages: seq<string>)
    ensures Stops(Scan(s, languages).1, languages)
    decreases |s|
  {
    if !Stops(s, languages) {
      ScanStops(After(s, MatchSegment(s).value), languages);
    }
  }

  /** Parsing the remaining path again consumes nothing: empty prefix, empty context, the same remaining path. */
  lemma Idempotent(path: string, languages: seq<string>)
    ensures var r := ParsePrefixSpec(path, languages);
      ParsePrefixSpec(r.remainingPath, languages) == PrefixResult("", map[], r.remainingPath)
  {
    ScanStops(path, languages);
  }

  /** The greedy run stops exactly at the `/` that follows a slash-free value. */
  lemma {:induction false} RunOfValue(value: string, tail: string)
    requires '/' !in value && (tail == [] || tail[0] == '/')
    ensures Run(value + tail) == value
  {
    if value == [] {
      assert value + tail == tail;
    } else {
      assert (value + tail)[1..] == value[1..] + tail;
      RunOfValue(value[1..], tail);
      assert [value[0]] + value[1..] == value;
    }
  }

  /** A segment text followed by nothing or by `/` is matched as exactly that segment. */
  lemma SegmentAt(key: char, value: string, tail: string)
    requires IsKey(key) && value != [] && '/' !in value
    requires tail == [] || tail[0] == '/'
    ensures MatchSegment(SegmentText(Segment(key, value)) + tail) == Some(Segment(key, value))
  {
    var s := SegmentText(Segment(key, value)) + tail;
    assert s[3..] == value + tail;
    assert s[..4] == ['/', key, '/', value[0]];
    RunOfValue(value, tail);
  }

  /**
   * A path that starts with a locale segment for an unsupported language is
   * not consumed at all: no prefix, no context, the whole path remains.
   */
  lemma UnsupportedLocaleStops(value: string, tail: string, languages: seq<string>)
    requires value != [] && '/' !in value && value !in languages
    requires tail == [] || tail[0] == '/'
    ensures var s := SegmentText(Segment('l', value)) + tail;
      ParsePrefixSpec(s, languages) == PrefixResult("", map[], s)
  {
    SegmentAt('l', value, tail);
  }

  /**
   * An accepted segment at the start of the path is consumed first; the scan
   * goes on from what follows it, or from `/` when nothing does.
   */
  lemma ScanSegment(seg: Segment, tail: string, languages: seq<string>)
    requires IsKey(seg.key) && seg.value != [] && '/' !in seg.value && !Rejected(seg, languages)
    requires tail == [] || tail[0] == '/'
    ensures var next := Scan(if tail == [] then "/" else tail, languages);
      Scan(SegmentText(seg) + tail, languages) == ([seg] + next.0, next.1)
  {
    var s := SegmentText(seg) + tail;
    SegmentAt(seg.key, seg.value, tail);
    if tail == [] {
      assert s[|SegmentText(seg)|..] == [];
    } else {
      assert s[|SegmentText(seg)|..] == tail;
    }
  }

  /** Any other key is consumed whatever its value: only locales are checked against the language list. */
  lemma OtherKeysAccepted(key: char, value: string, tail: string, languages: seq<string>)
    requires IsKey(key) && key != 'l' && value != [] && '/' !in value
    requires tail == [] || tail[0] == '/'
    ensures var segs := Scan(SegmentText(Segment(key, value)) + tail, languages).0;
      segs != [] && segs[0] == Segment(key, value)
  {
    ScanSegment(Segment(key, value), tail, languages);
  }

  /** The text of a locale segment. */
  lemma LocaleText(lang: string)
    ensures SegmentText(Segment('l', lang)) == "/l/" + lang
  {
    assert "/" + ['l'] + "/" == "/l/";
  }

  /**
   * A supported locale followed by a path that starts with no segment: the
   * locale is the prefix and the context, the rest of the path remains. The
   * source's own example, `/l/en-US/about`, is the instance `lang == "en-US"`,
   * `rest == "/about"`.
   */
  lemma SingleLocale(lang: string, rest: string, languages: seq<string>)
    requires lang in languages && lang != [] && '/' !in lang
    requires rest != [] && rest[0] == '/' && MatchSegment(rest).None?
    ensures ParsePrefixSpec("/l/" + lang + rest, languages) == PrefixResult("/l/" + lang, map['l' := lang], rest)
  {
    var seg := Segment('l', lang);
    ScanSegment(seg, rest, languages);
    LocaleText(lang);
    assert Scan(rest, languages) == ([], rest);
    OneSegment(seg);
    assert Scan("/l/" + lang + rest, languages) == ([seg], rest);
  }

  /** The example of the source's comment: `/l/en-US/about` with `en-US` supported. */
  lemma LocaleExample()
    ensures ParsePrefixSpec("/l/en-US/about", ["en-US"]) == PrefixResult("/l/en-US", map['l' := "en-US"], "/about")
  {
    SingleLocale("en-US", "/about", ["en-US"]);
    ExampleText();
  }

  /** The example path is the locale segment followed by `/about`. A separate step, to keep the proofs that use it small. */
  lemma ExampleText()
    ensures "/l/" + "en-US" == "/l/en-US"
    ensures "/l/" + "en-US" + "/about" == "/l/en-US/about"
  {
    assert "/l/" + "en-US" + "/about" == "/l/en-US" + "/about";
  }

  /**
   * A path made only of a supported locale is consumed entirely: the whole
   * path is the prefix and `/` remains.
   */
  lemma LocaleOnly(lang: string, languages: seq<string>)
    requires lang in languages && lang != [] && '/' !in lang
    ensures ParsePrefixSpec("/l/" + lang, languages) == PrefixResult("/l/" + lang, map['l' := lang], "/")
  {
    var seg := Segment('l', lang);
    ScanSegment(seg, [], languages);
    LocaleText(lang);
    assert SegmentText(seg) + [] == SegmentText(seg);
    assert Scan("/", languages) == ([], "/");
    OneSegment(seg);
    assert Scan("/l/" + lang, languages) == ([seg], "/");
  }

  /** A locale then a currency, both consumed, the rest of the path remaining. */
  lemma LocaleThenCurrency(lang: string, cur: string, rest: string, languages: seq<string>)
    requires lang in languages && lang != [] && '/' !in lang
    requires cur != [] && '/' !in cur
    requires rest != [] && rest[0] == '/' && MatchSegment(rest).None?
    ensures var l := Segment('l', lang); var c := Segment('c', cur);
      ParsePrefixSpec(SegmentText(l) + (SegmentText(c) + rest), languages)
        == PrefixResult(SegmentText(l) + SegmentText(c), map['l' := lang, 'c' := cur], rest)
  {
    var l := Segment('l', lang);
    var c := Segment('c', cur);
    var tail := SegmentText(c) + rest;
    ScanSegment(l, tail, languages);
    ScanSegment(c, rest, languages);
    assert Scan(rest, languages) == ([], rest);
    TwoSegments(l, c);
  }

  lemma OneSegment(seg: Segment)
    ensures [seg] + [] == [seg]
    ensures PrefixOf([seg]) == SegmentText(seg)
    ensures ContextOf([seg]) == map[seg.key := seg.value]
  {
    assert [seg][..0] == [];
    assert PrefixOf([seg]) == [] + SegmentText(seg);
  }

  lemma TwoSegments(l: Segment, c: Segment)
    ensures [l] + ([c] + []) == [l, c]
    ensures PrefixOf([l, c]) == SegmentText(l) + SegmentText(c)
    ensures ContextOf([l, c]) == map[l.key := l.value][c.key := c.value]
  {
    assert [l, c][..1] == [l];
    OneSegment(l);
  }
}
