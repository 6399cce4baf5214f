/** The parameter text a stack bean carries ("k1=v1, k2=v2" or
    "k1=v1; k2=a,b"), parsed into the map handed to CloudFormation. Both
    StackBean and PostBuildStackBean parse it the same way. */
module ParsedParameters {
  import opened Wrappers
  import opened JavaText
  import JavaMaps

  /** The list separator: ';' as soon as the text holds one, ',' otherwise. */
  function Delimiter(s: string): (c: char)
    ensures c == ';' || c == ','
    ensures c == ';' <==> ';' in s
  {
    if ';' in s then ';' else ','
  }

  /** The entries of the parameter text. */
  function Tokens(s: string): seq<string>
  {
    Split(s, Delimiter(s))
  }

  /** An entry `split("=")` turns into at least two tokens. */
  predicate WellFormed(e: string)
  {
    HasSecondToken(e, '=')
  }

  /** The trimmed text before the first '='. */
  function EntryKey(e: string): string
  {
    Trim(Before(e, '='))
  }

  /** The trimmed text between the first and the second '='. */
  function EntryValue(e: string): string
    requires WellFormed(e)
  {
    assert '=' in e by {
      var j :| IndexOf(e, '=') < j < |e| && e[j] != '=';
    }
    Trim(Between(e, '='))
  }

  /** One loop round: `token = param.split("=")`, then key `token[0].trim()`
      and value `env.expand(token[1].trim())`; an entry without a second
      token fails on `token[1]`. */
  function ParseEntry(e: string, expand: string -> string): (r: Result<JavaMaps.Entry>)
    ensures r.Ok? <==> WellFormed(e)
    ensures r.Err? ==> r.error == IndexOutOfBounds
    ensures r.Ok? ==> r.value == (EntryKey(e), expand(EntryValue(e)))
  {
    SplitTokens(e, '=');
    var token := Split(e, '=');
    if |token| < 2 then Err(IndexOutOfBounds)
    else Ok((Trim(token[0]), expand(Trim(token[1]))))
  }

  /** The result of each loop round, in entry order. */
  function Rounds(ps: seq<string>, expand: string -> string): (rs: seq<Result<JavaMaps.Entry>>)
    ensures |rs| == |ps|
    ensures forall i :: 0 <= i < |ps| ==> rs[i] == ParseEntry(ps[i], expand)
  {
    seq(|ps|, i requires 0 <= i < |ps| => ParseEntry(ps[i], expand))
  }

  /** The whole loop: every entry parsed in order, or the exception of the
      first one that is not well formed. */
  function ParseEntries(ps: seq<string>, expand: string -> string): (r: Result<seq<JavaMaps.Entry>>)
    ensures r.Ok? <==> forall i :: 0 <= i < |ps| ==> WellFormed(ps[i])
    ensures r.Err? ==> r.error == IndexOutOfBounds
    ensures r.Ok? ==> |r.value| == |ps|
    ensures r.Ok? ==> forall i :: 0 <= i < |ps| ==> r.value[i] == (EntryKey(ps[i]), expand(EntryValue(ps[i])))
  {
    RoundsCollected(ps, expand);
    Collect(Rounds(ps, expand))
  }

  /** What collecting the rounds gives: it succeeds exactly when every
      entry is well formed, and then holds each entry's key and value. */
  lemma RoundsCollected(ps: seq<string>, expand: string -> string)
    ensures var r := Collect(Rounds(ps, expand));
      r.Ok? <==> forall i :: 0 <= i < |ps| ==> WellFormed(ps[i])
    ensures var r := Collect(Rounds(ps, expand));
      r.Err? ==> r.error == IndexOutOfBounds
    ensures var r := Collect(Rounds(ps, expand));
      r.Ok? ==> |r.value| == |ps| && forall i :: 0 <= i < |ps| ==> r.value[i] == (EntryKey(ps[i]), expand(EntryValue(ps[i])))
  {
    var rounds := Rounds(ps, expand);
    var r := Collect(rounds);
    if r.Err? {
      var i :| 0 <= i < |rounds| && rounds[i] == Err(r.error) && forall j :: 0 <= j < i ==> rounds[j].Ok?;
      assert !WellFormed(ps[i]);
    } else {
      forall i | 0 <= i < |ps| ensures WellFormed(ps[i]) && r.value[i] == (EntryKey(ps[i]), expand(EntryValue(ps[i]))) {
        assert rounds[i].Ok?;
      }
    }
  }

  /** Entry `i` is the last of `ps` whose key is `k`. */
  predicate LastEntryFor(ps: seq<string>, i: nat, k: string)
  {
    i < |ps| && EntryKey(ps[i]) == k && forall j :: i < j < |ps| ==> EntryKey(ps[j]) != k
  }

  /** StackBean.getParsedParameters: a null or empty text gives an empty
      map; otherwise the map has one key per distinct entry key, holding the
      expanded value of the LAST entry with that key (a later put wins), and
      any entry without a value makes the whole call throw. */
  function GetParsedParameters(parameters: Option<string>, expand: string -> string): (r: Result<map<string, string>>)
    ensures parameters.None? || parameters.value == "" ==> r == Ok(map[])
    ensures r.Err? ==> r.error == IndexOutOfBounds
    ensures parameters.Some? && parameters.value != "" ==>
      (r.Ok? <==> forall i :: 0 <= i < |Tokens(parameters.value)| ==> WellFormed(Tokens(parameters.value)[i]))
    ensures r.Ok? && parameters.Some? && parameters.value != "" ==> forall k ::
      k in r.value <==> exists i :: 0 <= i < |Tokens(parameters.value)| && EntryKey(Tokens(parameters.value)[i]) == k
    ensures r.Ok? && parameters.Some? && parameters.value != "" ==> forall k :: k in r.value ==>
      exists i :: 0 <= i < |Tokens(parameters.value)| && LastEntryFor(Tokens(parameters.value), i, k)
        && WellFormed(Tokens(parameters.value)[i]) && r.value[k] == expand(EntryValue(Tokens(parameters.value)[i]))
  {
    if parameters.None? || parameters.value == "" then Ok(map[])
    else
      var ts := Tokens(parameters.value);
      match ParseEntries(ts, expand)
      case Err(e) => Err(e)
      case Ok(es) =>
        var vals := seq(|ts|, i requires 0 <= i < |ts| => expand(EntryValue(ts[i])));
        assert forall i :: 0 <= i < |ts| ==> es[i] == (EntryKey(ts[i]), vals[i]);
        PutAllKeys(ts, es);
        PutAllValues(ts, es, vals);
        Ok(JavaMaps.PutAll(map[], es))
  }

  /** The keys of the map built from the parsed entries. */
  lemma PutAllKeys(ts: seq<string>, es: seq<JavaMaps.Entry>)
    requires |es| == |ts|
    requires forall i :: 0 <= i < |ts| ==> es[i].0 == EntryKey(ts[i])
    ensures forall k :: k in JavaMaps.PutAll(map[], es) <==> exists i :: 0 <= i < |ts| && EntryKey(ts[i]) == k
  {
    var m := JavaMaps.PutAll(map[], es);
    assert m.Keys == JavaMaps.KeysOf(es);
    forall k ensures k in m <==> exists i :: 0 <= i < |ts| && EntryKey(ts[i]) == k {
      if exists i :: 0 <= i < |ts| && EntryKey(ts[i]) == k {
        var i :| 0 <= i < |ts| && EntryKey(ts[i]) == k;
        assert es[i].0 == k;
      }
    }
  }

  /** The values of the map built from the parsed entries: the last entry
      with the key supplies it. */
  lemma PutAllValues(ts: seq<string>, es: seq<JavaMaps.Entry>, vals: seq<string>)
    requires |es| == |ts| == |vals|
    requires forall i :: 0 <= i < |ts| ==> es[i] == (EntryKey(ts[i]), vals[i])
    ensures forall k :: k in JavaMaps.PutAll(map[], es) ==>
      exists i :: 0 <= i < |ts| && LastEntryFor(ts, i, k) && JavaMaps.PutAll(map[], es)[k] == vals[i]
  {
    var m := JavaMaps.PutAll(map[], es);
    JavaMaps.PutAllLastEntry(es);
    forall k | k in m
      ensures exists i :: 0 <= i < |ts| && LastEntryFor(ts, i, k) && m[k] == vals[i]
    {
      var i :| 0 <= i < |es| && es[i] == (k, m[k]) && JavaMaps.NotAfter(es, i, k);
      assert LastEntryFor(ts, i, k) by {
        forall j | i < j < |ts| ensures EntryKey(ts[j]) != k {
          assert es[j].0 == EntryKey(ts[j]);
        }
      }
    }
  }

  /** An entry with one '=' between `lhs` and `rhs`: its key text is `lhs`
      and its value text is `rhs`. */
  lemma OneSeparator(lhs: string, rhs: string)
    requires '=' !in lhs && '=' !in rhs
    ensures Before(lhs + ['='] + rhs, '=') == lhs
    ensures '=' in lhs + ['='] + rhs && Between(lhs + ['='] + rhs, '=') == rhs
    ensures |rhs| > 0 ==> WellFormed(lhs + ['='] + rhs)
  {
    var e := lhs + ['='] + rhs;
    IndexOfSeparator(lhs, rhs, '=');
    assert IndexOf(rhs, '=') == |rhs|;
    if |rhs| > 0 {
      assert e[|lhs| + 1] == rhs[0];
    }
  }

  /** An entry as a user types it: blanks may surround the key, the '='
      and the value. */
  function Padded(pre: string, key: string, mid: string, gap: string, value: string, post: string): string
  {
    pre + key + mid + "=" + gap + value + post
  }

  /** The blanks around a padded entry's parts, and the parts themselves,
      are as the parser expects them: no '=' inside, no blank at the ends
      of the key and of the (non-empty) value. */
  predicate PaddingOk(pre: string, key: string, mid: string, gap: string, value: string, post: string)
  {
    && IsBlank(pre) && IsBlank(mid) && IsBlank(gap) && IsBlank(post)
    && '=' !in key && '=' !in value
    && (|key| == 0 || (!IsBlankChar(key[0]) && !IsBlankChar(key[|key| - 1])))
    && |value| > 0 && !IsBlankChar(value[0]) && !IsBlankChar(value[|value| - 1])
  }

  /** Blanks around the key, around '=' and around the value do not matter:
      a padded entry has the bare key and the bare value. */
  lemma PaddedEntry(pre: string, key: string, mid: string, gap: string, value: string, post: string)
    requires PaddingOk(pre, key, mid, gap, value, post)
    ensures WellFormed(Padded(pre, key, mid, gap, value, post))
    ensures EntryKey(Padded(pre, key, mid, gap, value, post)) == key
    ensures EntryValue(Padded(pre, key, mid, gap, value, post)) == value
  {
    var lhs := pre + key + mid;
    var rhs := gap + value + post;
    assert '=' !in lhs && '=' !in rhs by {
      assert forall i :: 0 <= i < |pre| ==> IsBlankChar(pre[i]);
      assert forall i :: 0 <= i < |mid| ==> IsBlankChar(mid[i]);
      assert forall i :: 0 <= i < |gap| ==> IsBlankChar(gap[i]);
      assert forall i :: 0 <= i < |post| ==> IsBlankChar(post[i]);
    }
    assert Padded(pre, key, mid, gap, value, post) == lhs + ['='] + rhs;
    OneSeparator(lhs, rhs);
    TrimPadded(pre, key, mid);
    TrimPadded(gap, value, post);
  }

  /** So a padded entry parses to the bare key and the expanded bare value. */
  lemma ParseEntryPadded(pre: string, key: string, mid: string, gap: string, value: string, post: string,
                         expand: string -> string)
    requires PaddingOk(pre, key, mid, gap, value, post)
    ensures ParseEntry(Padded(pre, key, mid, gap, value, post), expand) == Ok((key, expand(value)))
  {
    PaddedEntry(pre, key, mid, gap, value, post);
  }

  /** A text whose entries are well formed and have distinct keys parses
      to the map from each key to its expanded value. */
  lemma ParsedDistinct(s: string, expand: string -> string)
    requires s != ""
    requires forall i :: 0 <= i < |Tokens(s)| ==> WellFormed(Tokens(s)[i])
    requires forall i, j :: 0 <= i < j < |Tokens(s)| ==> EntryKey(Tokens(s)[i]) != EntryKey(Tokens(s)[j])
    ensures var r := GetParsedParameters(Some(s), expand);
      r.Ok? && forall i :: 0 <= i < |Tokens(s)| ==> EntryKey(Tokens(s)[i]) in r.value && r.value[EntryKey(Tokens(s)[i])] == expand(EntryValue(Tokens(s)[i]))
  {
    var ts := Tokens(s);
    var r := GetParsedParameters(Some(s), expand);
    forall i | 0 <= i < |ts| ensures EntryKey(ts[i]) in r.value && r.value[EntryKey(ts[i])] == expand(EntryValue(ts[i])) {
      var k := EntryKey(ts[i]);
      var j :| 0 <= j < |ts| && LastEntryFor(ts, j, k) && WellFormed(ts[j]) && r.value[k] == expand(EntryValue(ts[j]));
      if j < i {
        assert false;
      } else if i < j {
        assert false;
      }
    }
  }

  /** Joining entries by the separator the parser will pick gives them back
      as its tokens. */
  lemma JoinedTokens(ts: seq<string>, d: char)
    requires d == ';' || d == ','
    requires |ts| >= 1 && ts[|ts| - 1] != ""
    requires forall i :: 0 <= i < |ts| ==> d !in ts[i] && ';' !in ts[i]
    requires d == ';' ==> |ts| >= 2
    ensures Join(ts, d) != "" && Tokens(Join(ts, d)) == ts
  {
    var s := Join(ts, d);
    if d == ',' {
      JoinAvoids(ts, ',', ';');
    }
    SplitJoin(ts, d);
    if |ts| == 1 {
      assert s == ts[0];
    } else {
      IndexOfSeparator(ts[0], Join(ts[1..], d), d);
    }
  }

  /** Entries with distinct keys, joined by ';' (or by ',' when no entry
      holds a ';'), parse to the map from each key to its expanded value:
      with ';' as separator, commas stay inside the values. */
  lemma ParsedJoin(ts: seq<string>, d: char, expand: string -> string)
    requires d == ';' || d == ','
    requires |ts| >= 1 && ts[|ts| - 1] != ""
    requires forall i :: 0 <= i < |ts| ==> d !in ts[i] && ';' !in ts[i]
    requires d == ';' ==> |ts| >= 2
    requires forall i :: 0 <= i < |ts| ==> WellFormed(ts[i])
    requires forall i, j :: 0 <= i < j < |ts| ==> EntryKey(ts[i]) != EntryKey(ts[j])
    ensures var r := GetParsedParameters(Some(Join(ts, d)), expand);
      r.Ok? && (forall k :: k in r.value ==> exists i :: 0 <= i < |ts| && EntryKey(ts[i]) == k)
      && forall i :: 0 <= i < |ts| ==> EntryKey(ts[i]) in r.value && r.value[EntryKey(ts[i])] == expand(EntryValue(ts[i]))
  {
    JoinedTokens(ts, d);
    ParsedDistinct(Join(ts, d), expand);
  }
}
