/**
 * The text level of `replace_placeholders`: `dedup_line` over the fixed marker
 * list, and `replace_and_clean`, which substitutes `{{KEY}}` tokens, blanks the
 * commencement-ticket line when there is no joining ticket, and de-duplicates.
 * Each operation is a method with a loop, specified by a function on strings.
 */
module Cleaner {
  import opened Text
  import opened Wrappers
  import opened Benefits

  /** A placeholder mapping: (key, value) pairs in the dictionary's iteration order. */
  type Mapping = seq<(string, string)>

  const CommencementMarker: string := "Commencement Air Tickets:"

  /** Clauses that must appear at most once in a paragraph, in the order they are checked. */
  const DedupStarts: seq<string> := [
    "Abu Dhabi University (ADU) is pleased",
    "Probation Period:",
    "Accommodation:",
    "Furniture Allowance:",
    "Annual Leave Airfare:",
    CommencementMarker,
    "Relocation Allowance:",
    "Repatriation Air Tickets:",
    "Repatriation Allowance:",
    "Medical Insurance:",
    "Annual Leave Entitlement:",
    "School Fee Subsidy:",
    "ADU Tuition Waiver:"
  ]

  /** The thirteen markers are distinct and non-empty, and the commencement marker is one of them. */
  lemma DedupStartsMarkers()
    ensures |DedupStarts| == 13 && CommencementMarker in DedupStarts
    ensures forall i :: 0 <= i < |DedupStarts| ==> |DedupStarts[i]| > 0
    ensures forall i, j :: 0 <= i < j < |DedupStarts| ==> DedupStarts[i] != DedupStarts[j]
  {
  }

  // ---------------------------------------------------------------------------
  // dedup_line

  /** One iteration of `dedup_line`: a repeated marker cuts the text to its last occurrence. */
  function DedupStep(text: string, start: string): (r: string)
    ensures IsSuffix(r, text)
    ensures Find(text, start) != RFind(text, start) ==> OccursAt(r, start, 0)
    ensures Find(text, start) == RFind(text, start) ==> r == text
  {
    var first := Find(text, start);
    if first == -1 then text
    else
      var last := RFind(text, start);
      if last != first then text[last..] else text
  }

  /** `dedup_line` with the markers taken in order. */
  function Dedup(text: string, starts: seq<string>): string
    decreases |starts|
  {
    if starts == [] then text else Dedup(DedupStep(text, starts[0]), starts[1..])
  }

  method DedupLine(text: string) returns (r: string)
    ensures r == Dedup(text, DedupStarts)
    ensures IsSuffix(r, text)
    ensures forall m :: m in DedupStarts ==> AtMostOnce(r, m)
  {
    r := text;
    for i := 0 to |DedupStarts|
      invariant Dedup(r, DedupStarts[i..]) == Dedup(text, DedupStarts)
    {
      ghost var old_r := r;
      var start := DedupStarts[i];
      var first := Find(r, start);
      if first != -1 {
        var last := RFind(r, start);
        if last != first {
          // keep only from the last occurrence onward
          r := r[last..];
        }
      }
      DedupUnfold(old_r, DedupStarts, i);
    }
    DedupSuffix(text, DedupStarts);
    DedupAtMostOnce(text, DedupStarts);
  }

  lemma DedupUnfold(text: string, starts: seq<string>, i: nat)
    requires i < |starts|
    ensures Dedup(text, starts[i..]) == Dedup(DedupStep(text, starts[i]), starts[i + 1..])
  {
    assert starts[i..][1..] == starts[i + 1..];
  }

  /** After one step the marker occurs at most once. */
  lemma DedupStepAtMostOnce(text: string, start: string)
    ensures AtMostOnce(DedupStep(text, start), start)
  {
    var first := Find(text, start);
    if first != -1 {
      var last := RFind(text, start);
      if last != first {
        var r := text[last..];
        forall i, j | 0 <= i <= |r| && 0 <= j <= |r| && OccursAt(r, start, i) && OccursAt(r, start, j)
          ensures i == j
        {
          OccursInSuffix(text, last, start, i);
          OccursInSuffix(text, last, start, j);
        }
      }
    }
  }

  /** A marker that already occurs at most once leaves the text alone. */
  lemma DedupStepUnchanged(text: string, start: string)
    requires AtMostOnce(text, start)
    ensures DedupStep(text, start) == text
  {
  }

  /** `dedup_line` returns a suffix of its input. */
  lemma {:induction false} DedupSuffix(text: string, starts: seq<string>)
    ensures IsSuffix(Dedup(text, starts), text)
    decreases |starts|
  {
    if starts != [] {
      var t := DedupStep(text, starts[0]);
      DedupSuffix(t, starts[1..]);
      SuffixTransitive(Dedup(t, starts[1..]), t, text);
    }
  }

  /** In the result of `dedup_line`, every marker occurs at most once. */
  lemma {:induction false} DedupAtMostOnce(text: string, starts: seq<string>)
    ensures forall m :: m in starts ==> AtMostOnce(Dedup(text, starts), m)
    decreases |starts|
  {
    if starts != [] {
      var t := DedupStep(text, starts[0]);
      DedupAtMostOnce(t, starts[1..]);
      DedupSuffix(t, starts[1..]);
      DedupStepAtMostOnce(text, starts[0]);
      SuffixAtMostOnce(Dedup(t, starts[1..]), t, starts[0]);
      assert forall m :: m in starts ==> m == starts[0] || m in starts[1..];
    }
  }

  /** A text in which every marker occurs at most once is left unchanged. */
  lemma {:induction false} DedupUnchanged(text: string, starts: seq<string>)
    requires forall m :: m in starts ==> AtMostOnce(text, m)
    ensures Dedup(text, starts) == text
    decreases |starts|
  {
    if starts != [] {
      DedupStepUnchanged(text, starts[0]);
      assert forall m :: m in starts[1..] ==> m in starts;
      DedupUnchanged(text, starts[1..]);
    }
  }

  /** `dedup_line` is idempotent. */
  lemma DedupIdempotent(text: string, starts: seq<string>)
    ensures Dedup(Dedup(text, starts), starts) == Dedup(text, starts)
  {
    DedupAtMostOnce(text, starts);
    DedupUnchanged(Dedup(text, starts), starts);
  }

  // ---------------------------------------------------------------------------
  // Token replacement

  /** The placeholder token for a key: the key in double braces. */
  function Token(key: string): (t: string)
    ensures |t| == |key| + 4 && t[0] == t[1] == '{' && t[|t| - 2] == t[|t| - 1] == '}'
    ensures t[2..|t| - 2] == key
  {
    "{{" + key + "}}"
  }

  /** `mapping.get(key, default)`. */
  function Get(mapping: Mapping, key: string, default: string): (v: string)
    ensures (forall p :: p in mapping ==> p.0 != key) ==> v == default
    ensures (exists p :: p in mapping && p.0 == key) ==> (key, v) in mapping
  {
    if mapping == [] then default
    else if mapping[0].0 == key then mapping[0].1
    else Get(mapping[1..], key, default)
  }

  /** One iteration of the replacement loop. */
  function ReplaceStep(text: string, kv: (string, string)): string
  {
    var token := Token(kv.0);
    if Contains(text, token) then ReplaceAll(text, token, kv.1) else text
  }

  /** The replacement loop: each key's token is replaced in turn, in mapping order. */
  function Substitute(text: string, mapping: Mapping): string
    decreases |mapping|
  {
    if mapping == [] then text else Substitute(ReplaceStep(text, mapping[0]), mapping[1..])
  }

  method ReplaceTokens(text: string, mapping: Mapping) returns (r: string)
    ensures r == Substitute(text, mapping)
  {
    r := text;
    for i := 0 to |mapping|
      invariant Substitute(r, mapping[i..]) == Substitute(text, mapping)
    {
      var (k, v) := mapping[i];
      var token := Token(k);
      if Contains(r, token) {
        r := ReplaceAll(r, token, v);
      }
      assert mapping[i..][1..] == mapping[i + 1..];
    }
  }

  /** A text with no token of any mapping key is left unchanged by substitution. */
  lemma {:induction false} SubstituteNoTokens(text: string, mapping: Mapping)
    requires forall p :: p in mapping ==> !Contains(text, Token(p.0))
    ensures Substitute(text, mapping) == text
    decreases |mapping|
  {
    if mapping != [] {
      assert mapping[0] in mapping;
      assert forall p :: p in mapping[1..] ==> p in mapping;
      SubstituteNoTokens(text, mapping[1..]);
    }
  }

  /** Texts that contain no '{' cannot hold a token. */
  predicate BraceFree(s: string) { '{' !in s }

  /** A key without braces, as the source's upper-case placeholder names are. */
  predicate PlainKey(k: string) { '{' !in k && '}' !in k }

  /** In a brace-free frame around one token, a token of a plain key can only be that same token. */
  lemma TokenPosition(a: string, key: string, b: string, k: string, i: int)
    requires BraceFree(a) && BraceFree(b) && PlainKey(key) && PlainKey(k)
    requires OccursAt(a + Token(key) + b, Token(k), i)
    ensures k == key && i == |a|
  {
    var text := a + Token(key) + b;
    var tk := Token(k);
    assert text[i..i + |tk|] == tk;
    assert text[i] == tk[0] && text[i + 1] == tk[1];
    forall x | 0 <= x < |text| && x != |a| && x != |a| + 1 ensures text[x] != '{' {
      if x < |a| {
        assert text[x] == a[x];
      } else if x < |a| + 2 + |key| {
        assert text[x] == key[x - |a| - 2];
      } else if x >= |a| + 4 + |key| {
        assert text[x] == b[x - |a| - 4 - |key|];
      }
    }
    assert i == |a|;
    assert forall j :: 0 <= j < |tk| ==> text[i + j] == tk[j];
    assert forall j :: 0 <= j < |key| ==> text[i + 2 + j] == key[j];
    assert forall j :: 0 <= j < |k| ==> tk[2 + j] == k[j];
    assert text[i + 2 + |key|] == '}';
    assert tk[2 + |k|] == '}';
    assert |k| == |key|;
    assert k == tk[2..|tk| - 2] == text[i + 2..i + 2 + |k|] == key;
  }

  /** Keys are pairwise distinct, as in a dictionary. */
  predicate DistinctKeys(mapping: Mapping)
  {
    forall i, j :: 0 <= i < j < |mapping| ==> mapping[i].0 != mapping[j].0
  }

  lemma DistinctKeysTail(mapping: Mapping)
    requires mapping != [] && DistinctKeys(mapping)
    ensures DistinctKeys(mapping[1..])
    ensures forall p :: p in mapping[1..] ==> p.0 != mapping[0].0
  {
    forall i, j | 0 <= i < j < |mapping[1..]| ensures mapping[1..][i].0 != mapping[1..][j].0 {
      assert mapping[1..][i] == mapping[i + 1] && mapping[1..][j] == mapping[j + 1];
    }
    forall p | p in mapping[1..] ensures p.0 != mapping[0].0 {
      var j :| 0 <= j < |mapping[1..]| && mapping[1..][j] == p;
      assert mapping[j + 1] == p;
    }
  }

  /** A brace-free text is left alone by every later substitution step. */
  lemma SubstituteBraceFree(text: string, mapping: Mapping)
    requires BraceFree(text)
    ensures Substitute(text, mapping) == text
  {
    forall p | p in mapping ensures !Contains(text, Token(p.0)) {
      NoOccurrenceWithout(text, Token(p.0));
    }
    SubstituteNoTokens(text, mapping);
  }

  /** The step for the token's own key replaces it by the value. */
  lemma ReplaceStepHit(a: string, key: string, b: string, v: string)
    requires BraceFree(a) && BraceFree(b)
    ensures ReplaceStep(a + Token(key) + b, (key, v)) == a + v + b
  {
    ReplaceAllSingle(a, Token(key), b, v);
    assert OccursAt(a + Token(key) + b, Token(key), |a|);
  }

  /** The step for any other plain key finds no token and changes nothing. */
  lemma ReplaceStepMiss(a: string, key: string, b: string, kv: (string, string))
    requires BraceFree(a) && BraceFree(b) && PlainKey(key) && PlainKey(kv.0) && kv.0 != key
    ensures ReplaceStep(a + Token(key) + b, kv) == a + Token(key) + b
  {
    forall i | OccursAt(a + Token(key) + b, Token(kv.0), i) ensures false {
      TokenPosition(a, key, b, kv.0, i);
    }
  }

  /**
   * Round trip of one placeholder: a paragraph holding one `{{key}}` between
   * brace-free texts, with plain keys and brace-free values, becomes the texts
   * around the value of `key`, whatever the order of the mapping.
   */
  lemma {:induction false} SubstituteSingleToken(a: string, key: string, b: string, mapping: Mapping)
    requires BraceFree(a) && BraceFree(b) && PlainKey(key)
    requires forall p :: p in mapping ==> PlainKey(p.0) && BraceFree(p.1)
    requires DistinctKeys(mapping)
    requires exists p :: p in mapping && p.0 == key
    ensures Substitute(a + Token(key) + b, mapping) == a + Get(mapping, key, "") + b
    decreases |mapping|
  {
    var (k, v) := mapping[0];
    assert mapping[0] in mapping;
    DistinctKeysTail(mapping);
    if k == key {
      ReplaceStepHit(a, key, b, v);
      SubstituteBraceFree(a + v + b, mapping[1..]);
    } else {
      ReplaceStepMiss(a, key, b, mapping[0]);
      assert forall p :: p in mapping[1..] ==> p in mapping;
      assert exists p :: p in mapping[1..] && p.0 == key by {
        var p :| p in mapping && p.0 == key;
        assert p != mapping[0];
      }
      SubstituteSingleToken(a, key, b, mapping[1..]);
    }
  }

  // ---------------------------------------------------------------------------
  // replace_and_clean

  /** The commencement-ticket line is dropped when the mapping has no joining ticket. */
  predicate Blanked(text: string, mapping: Mapping)
  {
    Get(mapping, "JOINING_TICKET", "") == "" && StartsWith(Strip(text), CommencementMarker)
  }

  /** The text a paragraph ends up with: substitute, maybe blank, de-duplicate. */
  function CleanText(text: string, mapping: Mapping): string
  {
    var substituted := Substitute(text, mapping);
    var kept := if Blanked(substituted, mapping) then "" else substituted;
    Dedup(kept, DedupStarts)
  }

  /** `replace_and_clean` on the text of one paragraph; the runs are rebuilt from `r`. */
  method ReplaceAndClean(text: string, mapping: Mapping) returns (r: string)
    ensures r == CleanText(text, mapping)
    ensures forall m :: m in DedupStarts ==> AtMostOnce(r, m)
  {
    r := ReplaceTokens(text, mapping);
    if Get(mapping, "JOINING_TICKET", "") == "" && StartsWith(Strip(r), CommencementMarker) {
      r := "";
    }
    r := DedupLine(r);
  }

  /**
   * Without a joining ticket, a line that after substitution starts with
   * "Commencement Air Tickets:" (leading whitespace aside) becomes empty.
   */
  lemma CommencementLineDropped(text: string, mapping: Mapping)
    requires Get(mapping, "JOINING_TICKET", "") == ""
    requires StartsWith(LStrip(Substitute(text, mapping)), CommencementMarker)
    ensures CleanText(text, mapping) == ""
  {
    StripStartsWith(Substitute(text, mapping), CommencementMarker);
    DedupUnchanged("", DedupStarts);
  }

  /**
   * A paragraph with no token of any mapping key, no repeated marker, and that is
   * not a commencement line to be dropped, keeps its text.
   */
  lemma CleanTextUnchanged(text: string, mapping: Mapping)
    requires forall p :: p in mapping ==> !Contains(text, Token(p.0))
    requires forall m :: m in DedupStarts ==> AtMostOnce(text, m)
    requires !Blanked(text, mapping)
    ensures CleanText(text, mapping) == text
  {
    SubstituteNoTokens(text, mapping);
    DedupUnchanged(text, DedupStarts);
  }

  /** The cleaned text is a suffix of the substituted text, or empty, with no marker repeated. */
  lemma CleanTextShape(text: string, mapping: Mapping)
    ensures var r := CleanText(text, mapping);
            && IsSuffix(r, Substitute(text, mapping))
            && (forall m :: m in DedupStarts ==> AtMostOnce(r, m))
            && Dedup(r, DedupStarts) == r
  {
    var s := Substitute(text, mapping);
    var kept := if Blanked(s, mapping) then "" else s;
    DedupSuffix(kept, DedupStarts);
    assert IsSuffix(kept, s);
    SuffixTransitive(CleanText(text, mapping), kept, s);
    DedupAtMostOnce(kept, DedupStarts);
    DedupIdempotent(kept, DedupStarts);
  }

  /** The mapping of `{**base_map, **benefits_map}` when the two have no key in common. */
  function Merge(base: Mapping, benefits: BenefitsMapping): Mapping
  {
    base + Pairs(benefits)
  }

  lemma {:induction false} GetAppend(m1: Mapping, m2: Mapping, key: string, default: string)
    requires forall p :: p in m1 ==> p.0 != key
    ensures Get(m1 + m2, key, default) == Get(m2, key, default)
    decreases |m1|
  {
    if m1 != [] {
      assert (m1 + m2)[1..] == m1[1..] + m2;
      assert (m1 + m2)[0] == m1[0];
      assert m1[0] in m1;
      assert forall p :: p in m1[1..] ==> p in m1;
      GetAppend(m1[1..], m2, key, default);
      calc {
        Get(m1 + m2, key, default);
        Get((m1 + m2)[1..], key, default);
        Get(m1[1..] + m2, key, default);
      }
    } else {
      assert m1 + m2 == m2;
    }
  }

  /** The benefits mapping's JOINING_TICKET entry is what `get` finds. */
  lemma GetPairsTicket(b: BenefitsMapping)
    ensures Get(Pairs(b), "JOINING_TICKET", "") == b.joiningTicket
  {
    var m := Pairs(b);
    assert m[1..][1..][0] == m[2];
  }

  /**
   * For a local hire the joining ticket is empty, so every paragraph that after
   * substitution is a commencement-ticket line is emptied.
   */
  lemma LocalHireDropsCommencementLine(
    rank: string, marital: string, campus: string, b: BenefitsMapping, base: Mapping, text: string)
    requires ComputeBenefitsMapping(rank, marital, campus, false) == Success(b)
    requires forall p :: p in base ==> p.0 != "JOINING_TICKET"
    requires StartsWith(LStrip(Substitute(text, Merge(base, b))), CommencementMarker)
    ensures CleanText(text, Merge(base, b)) == ""
  {
    JoiningTicketOnlyInternational(rank, marital, campus, false);
    GetAppend(base, Pairs(b), "JOINING_TICKET", "");
    GetPairsTicket(b);
    CommencementLineDropped(text, Merge(base, b));
  }
}
