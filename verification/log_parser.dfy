/**
 * `LogWatcher.parse_log_line`: `re.findall(r'(\w+):([^|]+)', line)`, turned
 * into a dictionary in which later keys overwrite earlier ones, then the four
 * fields the watcher uses, each with its default.
 *
 * The regular expression is modelled as a left-to-right scanner over the
 * characters of the line. Tried at a position p, `\w+:` can only succeed on
 * the whole run of word characters starting at p, and only when a `:` follows
 * it; `[^|]+` then greedily takes everything up to the next `|` or the end of
 * the line and must take at least one character. `findall` restarts after a
 * match at the end of that match, and after a failed attempt one character
 * further on.
 */
module LogParser {
  import opened Wrappers
  import opened Text

  /** The pool name the parser gives a line without a `pool` key. */
  const Unknown: string := "unknown"

  /**
   * The most digits `int` converts from a decimal string: CPython's default
   * integer string conversion length limit. Longer strings raise `ValueError`.
   */
  const IntMaxStrDigits: nat := 4300

  /** One match of the pattern: its key and value groups and the span [start, end) it covers. */
  datatype Token = Token(start: nat, key: string, value: string, end: nat)

  /** What `parse_log_line` returns (the `timestamp` entry is read from the `time` key). */
  datatype LogRecord = LogRecord(pool: string, status: nat, upstreamStatus: string, timestamp: string)

  predicate AllWord(k: string) {
    forall i :: 0 <= i < |k| ==> IsWordChar(k[i])
  }

  /** End of the run of word characters that starts at `p`. */
  function WordEnd(s: string, p: nat): (q: nat)
    requires p <= |s|
    ensures p <= q <= |s|
    decreases |s| - p
  {
    if p < |s| && IsWordChar(s[p]) then WordEnd(s, p + 1) else p
  }

  /** Index of the first `|` at or after `p`, or the end of the line. */
  function BarEnd(s: string, p: nat): (q: nat)
    requires p <= |s|
    ensures p <= q <= |s|
    decreases |s| - p
  {
    if p < |s| && s[p] != '|' then BarEnd(s, p + 1) else p
  }

  /** `WordEnd` stops at the first character that is not a word character. */
  lemma {:induction false} WordEndSpec(s: string, p: nat)
    requires p <= |s|
    ensures forall i :: p <= i < WordEnd(s, p) ==> IsWordChar(s[i])
    ensures WordEnd(s, p) == |s| || !IsWordChar(s[WordEnd(s, p)])
    decreases |s| - p
  {
    if p < |s| && IsWordChar(s[p]) {
      WordEndSpec(s, p + 1);
    }
  }

  /** `BarEnd` stops at the first `|`. */
  lemma {:induction false} BarEndSpec(s: string, p: nat)
    requires p <= |s|
    ensures forall i :: p <= i < BarEnd(s, p) ==> s[i] != '|'
    ensures BarEnd(s, p) == |s| || s[BarEnd(s, p)] == '|'
    decreases |s| - p
  {
    if p < |s| && s[p] != '|' {
      BarEndSpec(s, p + 1);
    }
  }

  /** A run of word characters ended by a non-word character or the end of the line is the one `WordEnd` finds. */
  lemma {:induction false} WordEndUnique(s: string, p: nat, q: nat)
    requires p <= q <= |s|
    requires forall i :: p <= i < q ==> IsWordChar(s[i])
    requires q == |s| || !IsWordChar(s[q])
    ensures WordEnd(s, p) == q
    decreases q - p
  {
    if p < q {
      WordEndUnique(s, p + 1, q);
    }
  }

  /** A stretch free of `|` ended by `|` or the end of the line is the one `BarEnd` finds. */
  lemma {:induction false} BarEndUnique(s: string, p: nat, q: nat)
    requires p <= q <= |s|
    requires forall i :: p <= i < q ==> s[i] != '|'
    requires q == |s| || s[q] == '|'
    ensures BarEnd(s, p) == q
    decreases q - p
  {
    if p < q {
      BarEndUnique(s, p + 1, q);
    }
  }

  /**
   * `t` is the match the pattern makes when tried at `t.start`: a non-empty
   * key of word characters, then `:`, then a non-empty value free of `|` that
   * runs up to the next `|` or to the end of the line.
   */
  predicate IsTokenAt(s: string, t: Token) {
    var colon := t.start + |t.key|;
    && t.end == colon + 1 + |t.value| <= |s|
    && |t.key| > 0 && AllWord(t.key) && s[t.start..colon] == t.key
    && s[colon] == ':'
    && |t.value| > 0 && '|' !in t.value && s[colon + 1..t.end] == t.value
    && (t.end == |s| || s[t.end] == '|')
  }

  /** One attempt of the pattern at position `p`; a match found spans from `p` to at most the end of the line. */
  function MatchAt(s: string, p: nat): (r: Option<Token>)
    requires p <= |s|
    ensures r.Some? ==> r.value.start == p < r.value.end <= |s|
  {
    var q := WordEnd(s, p);
    if q == p || q + 1 >= |s| || s[q] != ':' || s[q + 1] == '|' then None
    else
      var e := BarEnd(s, q + 1);
      Some(Token(p, s[p..q], s[q + 1..e], e))
  }

  /** What `MatchAt` finds is a match of the pattern. */
  lemma MatchAtSound(s: string, p: nat)
    requires p <= |s|
    ensures MatchAt(s, p).Some? ==> IsTokenAt(s, MatchAt(s, p).value)
  {
    var q := WordEnd(s, p);
    if q != p && q + 1 < |s| && s[q] == ':' && s[q + 1] != '|' {
      WordEndSpec(s, p);
      var e := BarEnd(s, q + 1);
      BarEndSpec(s, q + 1);
      var t := MatchAt(s, p).value;
      assert t.key == s[p..q] && t.value == s[q + 1..e];
      assert AllWord(t.key) by {
        forall i | 0 <= i < |t.key| ensures IsWordChar(t.key[i]) {
          assert t.key[i] == s[p + i];
        }
      }
      assert '|' !in t.value by {
        forall i | 0 <= i < |t.value| ensures t.value[i] != '|' {
          assert t.value[i] == s[q + 1 + i];
        }
      }
    }
  }

  /** Every match the pattern can make at a position is the one `MatchAt` finds there. */
  lemma MatchAtComplete(s: string, t: Token)
    requires IsTokenAt(s, t)
    ensures MatchAt(s, t.start) == Some(t)
  {
    var colon := t.start + |t.key|;
    forall i | t.start <= i < colon ensures IsWordChar(s[i]) {
      assert s[i] == t.key[i - t.start];
    }
    WordEndUnique(s, t.start, colon);
    forall i | colon + 1 <= i < t.end ensures s[i] != '|' {
      assert s[i] == t.value[i - colon - 1];
    }
    BarEndUnique(s, colon + 1, t.end);
    assert s[colon + 1] == t.value[0];
  }

  /** A match at `p` preceded by a word character means a match one position earlier. */
  lemma MatchExtendsLeft(s: string, p: nat)
    requires 0 < p <= |s|
    requires MatchAt(s, p).Some?
    ensures IsWordChar(s[p - 1]) ==> MatchAt(s, p - 1).Some?
  {
    if IsWordChar(s[p - 1]) {
      assert WordEnd(s, p - 1) == WordEnd(s, p);
    }
  }

  /** Some match found covers position `q`. */
  predicate Covered(ts: seq<Token>, q: nat) {
    exists i :: 0 <= i < |ts| && ts[i].start <= q < ts[i].end
  }

  /** `re.findall` from position `p`, with the spans of the matches. */
  function FindAll(s: string, p: nat): seq<Token>
    requires p <= |s|
    decreases |s| - p
  {
    if p == |s| then []
    else
      match MatchAt(s, p)
      case None => FindAll(s, p + 1)
      case Some(t) => [t] + FindAll(s, t.end)
  }

  /** Every token `findall` returns is a match of the pattern at or after `p`. */
  lemma {:induction false} FindAllSound(s: string, p: nat)
    requires p <= |s|
    ensures forall i :: 0 <= i < |FindAll(s, p)| ==>
      IsTokenAt(s, FindAll(s, p)[i]) && p <= FindAll(s, p)[i].start
    decreases |s| - p
  {
    if p < |s| {
      if MatchAt(s, p).None? {
        FindAllSkip(s, p);
        FindAllSound(s, p + 1);
      } else {
        var t := MatchAt(s, p).value;
        var ts, rest := FindAll(s, p), FindAll(s, t.end);
        assert ts == [t] + rest by { FindAllTake(s, p); }
        MatchAtSound(s, p);
        FindAllSound(s, t.end);
        forall i | 0 <= i < |ts| ensures IsTokenAt(s, ts[i]) && p <= ts[i].start {
          if i > 0 {
            assert ts[i] == rest[i - 1];
          }
        }
      }
    }
  }

  /** Each token ends before the next one starts. */
  predicate Ordered(ts: seq<Token>) {
    forall i, j :: 0 <= i < j < |ts| ==> ts[i].end <= ts[j].start
  }

  /** The matches `findall` returns come in order and do not overlap. */
  lemma {:induction false} FindAllOrdered(s: string, p: nat)
    requires p <= |s|
    ensures Ordered(FindAll(s, p))
    decreases |s| - p
  {
    if p < |s| {
      if MatchAt(s, p).None? {
        FindAllSkip(s, p);
        FindAllOrdered(s, p + 1);
      } else {
        var t := MatchAt(s, p).value;
        var ts, rest := FindAll(s, p), FindAll(s, t.end);
        assert ts == [t] + rest by { FindAllTake(s, p); }
        FindAllOrdered(s, t.end);
        FindAllSound(s, t.end);
        OrderedCons(t, rest);
      }
    }
  }

  /** A token ending before every token of an ordered sequence can be put in front of it. */
  lemma OrderedCons(t: Token, rest: seq<Token>)
    requires Ordered(rest)
    requires forall j :: 0 <= j < |rest| ==> t.end <= rest[j].start
    ensures Ordered([t] + rest)
  {
    var ts := [t] + rest;
    forall i, j | 0 <= i < j < |ts| ensures ts[i].end <= ts[j].start {
      assert ts[j] == rest[j - 1];
      if i > 0 {
        assert ts[i] == rest[i - 1];
      }
    }
  }

  /** `findall` misses nothing: every position where the pattern could match lies inside a match found. */
  lemma {:induction false} FindAllComplete(s: string, p: nat)
    requires p <= |s|
    ensures forall q :: p <= q < |s| && MatchAt(s, q).Some? ==> Covered(FindAll(s, p), q)
    decreases |s| - p
  {
    if p < |s| {
      if MatchAt(s, p).None? {
        FindAllSkip(s, p);
        FindAllComplete(s, p + 1);
      } else {
        var t := MatchAt(s, p).value;
        var ts, rest := FindAll(s, p), FindAll(s, t.end);
        assert ts == [t] + rest by { FindAllTake(s, p); }
        FindAllComplete(s, t.end);
        forall q | p <= q < |s| && MatchAt(s, q).Some? ensures Covered(ts, q) {
          if q < t.end {
            assert ts[0] == t;
          } else {
            var i :| 0 <= i < |rest| && rest[i].start <= q < rest[i].end;
            assert ts[i + 1] == rest[i];
          }
        }
      }
    }
  }

  /** No token of `FindAll(s, 0)` covers the position just before another token. */
  lemma NothingCoversBeforeToken(s: string, j: nat)
    requires j < |FindAll(s, 0)| && FindAll(s, 0)[j].start > 0
    ensures !Covered(FindAll(s, 0), FindAll(s, 0)[j].start - 1)
  {
    var ts := FindAll(s, 0);
    var t := ts[j];
    FindAllOrdered(s, 0);
    FindAllSound(s, 0);
    assert IsWordChar(s[t.start]) by {
      assert s[t.start] == t.key[0];
    }
    forall i | 0 <= i < j ensures ts[i].end < t.start {
      assert ts[i].end <= t.start;
    }
  }

  /** The key of `t` is not preceded by a word character. */
  predicate StartsWordRun(s: string, t: Token) {
    t.start == 0 || (t.start <= |s| && !IsWordChar(s[t.start - 1]))
  }

  /** The token of `FindAll(s, 0)` at index `j` is not preceded by a word character. */
  lemma KeyIsMaximalWordRun(s: string, j: nat)
    requires j < |FindAll(s, 0)|
    ensures StartsWordRun(s, FindAll(s, 0)[j])
  {
    var t := FindAll(s, 0)[j];
    if t.start > 0 {
      NothingCoversBeforeToken(s, j);
      FindAllComplete(s, 0);
      FindAllSound(s, 0);
      MatchAtComplete(s, t);
      MatchExtendsLeft(s, t.start);
    }
  }

  /** A key is always a whole run of word characters: the character before it is not a word character. */
  lemma KeysAreMaximalWordRuns(s: string)
    ensures forall t :: t in FindAll(s, 0) ==> StartsWordRun(s, t)
  {
    var ts := FindAll(s, 0);
    forall t | t in ts ensures StartsWordRun(s, t) {
      var j :| 0 <= j < |ts| && ts[j] == t;
      KeyIsMaximalWordRun(s, j);
    }
  }

  /** The `(key, value)` tuples that `re.findall` returns. */
  function Pairs(ts: seq<Token>): (ps: seq<(string, string)>)
    ensures |ps| == |ts|
  {
    if ts == [] then [] else [(ts[0].key, ts[0].value)] + Pairs(ts[1..])
  }

  /** Each tuple holds the key and value groups of the match at the same index. */
  lemma {:induction false} PairsIndex(ts: seq<Token>)
    ensures forall i :: 0 <= i < |ts| ==> Pairs(ts)[i] == (ts[i].key, ts[i].value)
  {
    if ts != [] {
      PairsIndex(ts[1..]);
      forall i | 1 <= i < |ts| ensures Pairs(ts)[i] == (ts[i].key, ts[i].value) {
        assert Pairs(ts)[i] == Pairs(ts[1..])[i - 1];
      }
    }
  }

  /** `dict(pairs)`: built from left to right, so a later key overwrites an earlier one. */
  function ToDict(ps: seq<(string, string)>): map<string, string>
  {
    if ps == [] then map[]
    else ToDict(ps[..|ps| - 1])[ps[|ps| - 1].0 := ps[|ps| - 1].1]
  }

  /** The dictionary has exactly the keys of the tuples, and each value is paired with its key in some tuple. */
  lemma {:induction false} ToDictSpec(ps: seq<(string, string)>)
    ensures forall k :: k in ToDict(ps) <==> exists i :: 0 <= i < |ps| && ps[i].0 == k
    ensures forall k :: k in ToDict(ps) ==> exists i :: 0 <= i < |ps| && ps[i] == (k, ToDict(ps)[k])
  {
    if ps != [] {
      var init := ps[..|ps| - 1];
      ToDictSpec(init);
      assert forall i :: 0 <= i < |init| ==> init[i] == ps[i];
    }
  }

  /** The value a key has in the dictionary is the one paired with its last occurrence. */
  lemma {:induction false} LastOccurrenceWins(ps: seq<(string, string)>, i: nat)
    requires i < |ps|
    requires forall j :: i < j < |ps| ==> ps[j].0 != ps[i].0
    ensures ps[i].0 in ToDict(ps) && ToDict(ps)[ps[i].0] == ps[i].1
  {
    if i < |ps| - 1 {
      var init := ps[..|ps| - 1];
      assert init[i] == ps[i];
      LastOccurrenceWins(init, i);
    }
  }

  /** `dict(re.findall(pattern, line)).get(key, default)`. */
  function Field(line: string, key: string, default: string): (v: string)
    ensures v == default || (|v| > 0 && '|' !in v)
  {
    var ts := FindAll(line, 0);
    FindAllSound(line, 0);
    PairsIndex(ts);
    ToDictSpec(Pairs(ts));
    var d := ToDict(Pairs(ts));
    if key in d then d[key] else default
  }

  /** A key that the scanner never finds takes its default. */
  lemma FieldDefault(line: string, key: string, default: string)
    requires forall t :: t in FindAll(line, 0) ==> t.key != key
    ensures Field(line, key, default) == default
  {
    var ts := FindAll(line, 0);
    PairsIndex(ts);
    ToDictSpec(Pairs(ts));
    forall i | 0 <= i < |ts| ensures Pairs(ts)[i].0 != key {
      assert ts[i] in ts;
    }
  }

  /** A key that the scanner finds takes the value of its last occurrence in the line. */
  lemma FieldLastWins(line: string, key: string, default: string, i: nat)
    requires i < |FindAll(line, 0)| && FindAll(line, 0)[i].key == key
    requires forall j :: i < j < |FindAll(line, 0)| ==> FindAll(line, 0)[j].key != key
    ensures Field(line, key, default) == FindAll(line, 0)[i].value
  {
    PairsIndex(FindAll(line, 0));
    LastOccurrenceWins(Pairs(FindAll(line, 0)), i);
  }

  lemma PairsCons(t: Token, ts: seq<Token>)
    ensures Pairs([t] + ts) == [(t.key, t.value)] + Pairs(ts)
  {
    assert ([t] + ts)[1..] == ts;
  }

  /** One step of `findall`: a failed attempt moves one position on. */
  lemma FindAllSkip(s: string, p: nat)
    requires p < |s| && MatchAt(s, p).None?
    ensures FindAll(s, p) == FindAll(s, p + 1)
  {
  }

  /** One step of `findall`: a match is kept and the scan resumes at its end. */
  lemma FindAllTake(s: string, p: nat)
    requires p < |s| && MatchAt(s, p).Some?
    ensures FindAll(s, p) == [MatchAt(s, p).value] + FindAll(s, MatchAt(s, p).value.end)
  {
  }

  /** A field `key:value` that the pattern reads back as exactly that pair. */
  predicate WellFormedField(f: (string, string)) {
    |f.0| > 0 && AllWord(f.0) && |f.1| > 0 && '|' !in f.1
  }

  /** Fields written as `key:value`, separated by `|`. */
  function Render(fs: seq<(string, string)>): string
  {
    if fs == [] then ""
    else if |fs| == 1 then fs[0].0 + ":" + fs[0].1
    else fs[0].0 + ":" + fs[0].1 + "|" + Render(fs[1..])
  }

  /** A well-formed `key:value` written at `p` and ended by `|` or the end of the line is read as the next pair. */
  lemma FindAllFieldAt(s: string, p: nat, k: string, v: string)
    requires WellFormedField((k, v))
    requires p + |k| + 1 + |v| <= |s|
    requires s[p..p + |k|] == k && s[p + |k|] == ':' && s[p + |k| + 1..p + |k| + 1 + |v|] == v
    requires p + |k| + 1 + |v| == |s| || s[p + |k| + 1 + |v|] == '|'
    ensures var e := p + |k| + 1 + |v|;
      && (e == |s| ==> Pairs(FindAll(s, p)) == [(k, v)])
      && (e < |s| ==> Pairs(FindAll(s, p)) == [(k, v)] + Pairs(FindAll(s, e + 1)))
  {
    var e := p + |k| + 1 + |v|;
    var t := Token(p, k, v, e);
    assert IsTokenAt(s, t);
    MatchAtComplete(s, t);
    FindAllTake(s, p);
    PairsCons(t, FindAll(s, e));
    if e < |s| {
      assert WordEnd(s, e) == e;
      FindAllSkip(s, e);
    }
  }

  /** The fields `fs` are written from position `p` of `s` to its end, as `Render` writes them. */
  predicate RenderedAt(s: string, p: nat, fs: seq<(string, string)>)
    decreases |fs|
  {
    if fs == [] then p == |s|
    else
      var k, v := fs[0].0, fs[0].1;
      var e := p + |k| + 1 + |v|;
      && e <= |s|
      && s[p..p + |k|] == k && s[p + |k|] == ':' && s[p + |k| + 1..e] == v
      && if |fs| == 1 then e == |s| else e < |s| && s[e] == '|' && RenderedAt(s, e + 1, fs[1..])
  }

  /** A rendering placed at `p` is written there field by field. */
  lemma {:induction false} RenderIsRenderedAt(s: string, p: nat, fs: seq<(string, string)>)
    requires p <= |s| && s[p..] == Render(fs)
    ensures RenderedAt(s, p, fs)
    decreases |fs|, 1
  {
    if fs == [] {
      assert |s[p..]| == 0;
    } else {
      var k, v := fs[0].0, fs[0].1;
      var e := p + |k| + 1 + |v|;
      var tail := if |fs| == 1 then "" else "|" + Render(fs[1..]);
      assert s[p..] == k + ":" + v + tail;
      FieldAt(s, p, k, v, tail);
      if |fs| > 1 {
        assert s[e] == s[e..][0];
        assert s[e + 1..] == s[e..][1..];
        RenderedAtMore(s, p, fs, k, v, e);
      } else {
        RenderedAtLast(s, p, fs, k, v, e);
      }
    }
  }

  /** `key:value` followed by `tail` at position `p` of `s`, read through positions of `s`. */
  lemma FieldAt(s: string, p: nat, k: string, v: string, tail: string)
    requires p <= |s| && s[p..] == k + ":" + v + tail
    ensures var e := p + |k| + 1 + |v|;
      && e + |tail| == |s|
      && s[p..p + |k|] == k && s[p + |k|] == ':' && s[p + |k| + 1..e] == v && s[e..] == tail
  {
    var r := s[p..];
    var e := p + |k| + 1 + |v|;
    assert s[p..p + |k|] == r[..|k|];
    assert s[p + |k| + 1..e] == r[|k| + 1..|k| + 1 + |v|];
    assert s[e..] == r[|k| + 1 + |v|..];
  }

  /** `RenderedAt` for a single field `k:v` written from `p` to the end of `s`. */
  lemma RenderedAtLast(s: string, p: nat, fs: seq<(string, string)>, k: string, v: string, e: nat)
    requires |fs| == 1 && fs[0] == (k, v) && e == p + |k| + 1 + |v| && e == |s|
    requires s[p..p + |k|] == k && s[p + |k|] == ':' && s[p + |k| + 1..e] == v
    ensures RenderedAt(s, p, fs)
  {
  }

  /** `RenderedAt` for a field `k:v` written from `p`, then `|` and the rest of the fields. */
  lemma {:induction false} RenderedAtMore(s: string, p: nat, fs: seq<(string, string)>, k: string, v: string, e: nat)
    requires |fs| > 1 && fs[0] == (k, v) && e == p + |k| + 1 + |v| && e < |s|
    requires s[p..p + |k|] == k && s[p + |k|] == ':' && s[p + |k| + 1..e] == v
    requires s[e] == '|' && s[e + 1..] == Render(fs[1..])
    ensures RenderedAt(s, p, fs)
    decreases |fs|, 0
  {
    RenderIsRenderedAt(s, e + 1, fs[1..]);
  }

  /** What `RenderedAt` says about the first field and the rest of the fields. */
  lemma RenderedAtHead(s: string, p: nat, fs: seq<(string, string)>)
    requires RenderedAt(s, p, fs) && fs != []
    ensures var k, v := fs[0].0, fs[0].1; var e := p + |k| + 1 + |v|;
      && e <= |s|
      && s[p..p + |k|] == k && s[p + |k|] == ':' && s[p + |k| + 1..e] == v
      && (e == |s| <==> |fs| == 1)
      && (|fs| > 1 ==> s[e] == '|' && RenderedAt(s, e + 1, fs[1..]))
  {
  }

  /** From wherever well-formed fields are written, `findall` reads them back, in order. */
  lemma {:induction false} FindAllRenderedAt(s: string, p: nat, fs: seq<(string, string)>)
    requires RenderedAt(s, p, fs)
    requires forall i :: 0 <= i < |fs| ==> WellFormedField(fs[i])
    ensures p <= |s| && Pairs(FindAll(s, p)) == fs
    decreases |fs|
  {
    if fs != [] {
      var k, v := fs[0].0, fs[0].1;
      var e := p + |k| + 1 + |v|;
      RenderedAtHead(s, p, fs);
      FindAllFieldAt(s, p, k, v);
      if |fs| > 1 {
        FindAllRenderedAt(s, e + 1, fs[1..]);
        assert fs == [fs[0]] + fs[1..];
      }
    }
  }

  /** `findall` reads back every field of a `|`-separated rendering, in order. */
  lemma FindAllRender(fs: seq<(string, string)>)
    requires forall i :: 0 <= i < |fs| ==> WellFormedField(fs[i])
    ensures Pairs(FindAll(Render(fs), 0)) == fs
  {
    RenderIsRenderedAt(Render(fs), 0, fs);
    FindAllRenderedAt(Render(fs), 0, fs);
  }

  /** `status.isdigit()` holds but `int(status)` raises, because the digits exceed the conversion limit. */
  predicate IntRejects(status: string) {
    IsDigits(status) && |status| > IntMaxStrDigits
  }

  /** `int(status) if status.isdigit() else 0`, for a status that `int` accepts. */
  function StatusValue(v: string): (n: nat)
    requires !IntRejects(v)
    ensures |Decimal(n)| <= IntMaxStrDigits
    ensures !IsDigits(v) ==> n == 0
  {
    if IsDigits(v) then
      DecimalOfDigitsIsNoLonger(v);
      DecimalValue(v)
    else 0
  }

  /**
   * `parse_log_line(line)`. On ASCII input the only exception is the
   * `ValueError` that `int` raises for a status of more digits than the
   * conversion limit; the `except` branch then returns `None`. Otherwise the
   * record's pool is never empty, no field contains `|`, and the status has
   * at most as many digits as the limit allows.
   */
  function ParseLogLine(line: string): (r: Option<LogRecord>)
    ensures r.None? <==> IntRejects(Field(line, "status", "0"))
    ensures r.Some? ==> r.value.pool != [] && '|' !in r.value.pool
    ensures r.Some? ==> '|' !in r.value.upstreamStatus && '|' !in r.value.timestamp
    ensures r.Some? ==> |Decimal(r.value.status)| <= IntMaxStrDigits
  {
    var status := Field(line, "status", "0");
    if IntRejects(status) then None
    else
      Some(LogRecord(
        Field(line, "pool", Unknown),
        StatusValue(status),
        Field(line, "upstream_status", ""),
        Field(line, "time", "")))
  }

  /** The fields of a record in the `key:value|key:value` form the parser reads; empty fields are omitted. */
  function RecordFields(r: LogRecord): seq<(string, string)> {
    [("pool", r.pool), ("status", Decimal(r.status))]
    + (if r.upstreamStatus == [] then [] else [("upstream_status", r.upstreamStatus)])
    + (if r.timestamp == [] then [] else [("time", r.timestamp)])
  }

  function FormatLogLine(r: LogRecord): string {
    Render(RecordFields(r))
  }

  /** Adding a pair at the end of the tuples updates its key in the dictionary. */
  lemma ToDictSnoc(ps: seq<(string, string)>, kv: (string, string))
    ensures ToDict(ps + [kv]) == ToDict(ps)[kv.0 := kv.1]
  {
    assert (ps + [kv])[..|ps|] == ps;
  }

  /** The four key names of a log line are pairwise different. */
  lemma KeyNamesDistinct()
    ensures "pool" != "status" && "pool" != "upstream_status" && "pool" != "time"
    ensures "status" != "upstream_status" && "status" != "time" && "upstream_status" != "time"
  {
    assert "pool"[0] != "time"[0];
  }

  /** The dictionary built from a record's fields maps each present key to its field; empty fields are absent. */
  lemma RecordFieldsDict(r: LogRecord)
    ensures ToDict(RecordFields(r)) ==
      var m := map["pool" := r.pool, "status" := Decimal(r.status)];
      var m := if r.upstreamStatus == [] then m else m["upstream_status" := r.upstreamStatus];
      if r.timestamp == [] then m else m["time" := r.timestamp]
  {
    var pool, status := ("pool", r.pool), ("status", Decimal(r.status));
    var up := if r.upstreamStatus == [] then [] else [("upstream_status", r.upstreamStatus)];
    var time := if r.timestamp == [] then [] else [("time", r.timestamp)];
    assert ToDict([pool, status]) == map["pool" := r.pool, "status" := Decimal(r.status)] by {
      ToDictSnoc([], pool);
      assert [] + [pool] == [pool];
      ToDictSnoc([pool], status);
      assert [pool] + [status] == [pool, status];
    }
    if r.upstreamStatus != [] {
      ToDictSnoc([pool, status], up[0]);
    } else {
      assert [pool, status] + up == [pool, status];
    }
    assert RecordFields(r) == [pool, status] + up + time;
    if r.timestamp != [] {
      ToDictSnoc([pool, status] + up, time[0]);
    } else {
      assert [pool, status] + up + time == [pool, status] + up;
    }
  }

  /** `findall` reads back from a record's rendering exactly the record's fields, in order. */
  lemma FormatLogLinePairs(r: LogRecord)
    requires r.pool != [] && '|' !in r.pool
    requires '|' !in r.upstreamStatus && '|' !in r.timestamp
    ensures Pairs(FindAll(FormatLogLine(r), 0)) == RecordFields(r)
  {
    var fs := RecordFields(r);
    assert AllWord("pool") && AllWord("status") && AllWord("upstream_status") && AllWord("time");
    assert forall i :: 0 <= i < |fs| ==> WellFormedField(fs[i]);
    FindAllRender(fs);
  }

  /**
   * Every record the parser can return (non-empty pool, no `|` in any text
   * field, a status within the digit limit) is read back from its
   * rendering: the parser loses nothing, values may hold spaces and further
   * colons, and absent fields take their defaults.
   */
  lemma ParseFormatRoundTrip(r: LogRecord)
    requires r.pool != [] && '|' !in r.pool
    requires '|' !in r.upstreamStatus && '|' !in r.timestamp
    requires |Decimal(r.status)| <= IntMaxStrDigits
    ensures ParseLogLine(FormatLogLine(r)) == Some(r)
  {
    FormatLogLinePairs(r);
    RecordFieldsDict(r);
    KeyNamesDistinct();
    DecimalRoundTrip(r.status);
  }

  /** A line in which the pattern matches nowhere yields every default: pool `unknown`, status 0, empty upstream status and time. */
  lemma NoFieldsDefaults(line: string)
    requires FindAll(line, 0) == []
    ensures ParseLogLine(line) == Some(LogRecord(Unknown, 0, "", ""))
  {
    FieldDefault(line, "pool", Unknown);
    FieldDefault(line, "status", "0");
    FieldDefault(line, "upstream_status", "");
    FieldDefault(line, "time", "");
    assert IsDigits("0");
  }

  /** The empty line yields every default. */
  lemma EmptyLineDefaults()
    ensures ParseLogLine("") == Some(LogRecord(Unknown, 0, "", ""))
  {
    assert FindAll("", 0) == [];
    NoFieldsDefaults("");
  }

  /** A status of more digits than `int` converts makes the parser return `None`, whatever the pool. */
  lemma LongStatusRejected(pool: string, digits: string)
    requires pool != [] && '|' !in pool
    requires IsDigits(digits) && |digits| > IntMaxStrDigits
    ensures ParseLogLine("pool:" + pool + "|status:" + digits) == None
  {
    var fs := [("pool", pool), ("status", digits)];
    assert AllWord("pool") && AllWord("status");
    assert '|' !in digits by {
      forall i | 0 <= i < |digits| ensures digits[i] != '|' {
        assert IsDigitChar(digits[i]);
      }
    }
    assert Render(fs) == "pool:" + pool + "|status:" + digits;
    FindAllRender(fs);
    LastOccurrenceWins(fs, 1);
  }

  /** A status value followed by a space is not `isdigit`, so the status is 0 whatever the digits. */
  lemma StatusWithTrailingSpaceIsZero(pool: string, code: nat)
    requires pool != [] && '|' !in pool
    ensures var r := ParseLogLine("pool:" + pool + "|status:" + Decimal(code) + " ");
      r.Some? && r.value.status == 0
  {
    var digits := Decimal(code);
    var fs := [("pool", pool), ("status", digits + " ")];
    assert AllWord("pool") && AllWord("status");
    assert '|' !in digits + " ";
    assert Render(fs) == "pool:" + pool + "|status:" + digits + " ";
    FindAllRender(fs);
    LastOccurrenceWins(fs, 1);
    assert !IsDigits(digits + " ") by {
      assert !IsDigitChar((digits + " ")[|digits|]);
    }
  }

  /** When a key occurs twice, the value of its later occurrence is the one parsed. */
  lemma LaterPoolWins(first: string, second: string)
    requires first != [] && '|' !in first
    requires second != [] && '|' !in second
    ensures var r := ParseLogLine("pool:" + first + "|pool:" + second);
      r.Some? && r.value.pool == second
  {
    var fs := [("pool", first), ("pool", second)];
    assert AllWord("pool");
    assert Render(fs) == "pool:" + first + "|pool:" + second;
    FindAllRender(fs);
    LastOccurrenceWins(fs, 1);
    FieldDefault("pool:" + first + "|pool:" + second, "status", "0");
  }

  /** A value runs to the next `|`: a later `time:` with no `|` before it stays inside the pool value. */
  lemma ValueRunsToNextBar(pool: string, time: string)
    requires pool != [] && '|' !in pool && '|' !in time
    ensures var r := ParseLogLine("pool:" + pool + " time:" + time);
      r.Some? && r.value.pool == pool + " time:" + time && r.value.timestamp == ""
  {
    var v := pool + " time:" + time;
    var fs := [("pool", v)];
    assert AllWord("pool");
    assert '|' !in v;
    assert Render(fs) == "pool:" + pool + " time:" + time;
    FindAllRender(fs);
    LastOccurrenceWins(fs, 0);
    assert "time" != "pool" by { assert "time"[0] != "pool"[0]; }
  }
}
