/**
 * The parts of `urllib.parse` the theme synchroniser uses: `quote_plus`
 * (what `urlencode` applies to every key and value), `unquote` after
 * `'+'` becomes a space (what `parse_qsl` applies), `parse_qsl`,
 * `parse_qs` and `urlencode(params, doseq=True)`.
 *
 * A parsed query is a Python dict from keys to lists of values; a dict
 * keeps its keys in insertion order, so it is modelled as the ordered
 * sequence `Params` of (key, values) entries.
 */
module Url {
  import opened Wrappers
  import opened PyStr

  // ---------------------------------------------------------------- quoting

  /** The characters `quote` never escapes. */
  predicate AlwaysSafe(c: char)
  {
    'A' <= c <= 'Z' || 'a' <= c <= 'z' || '0' <= c <= '9' || c == '_' || c == '.' || c == '-' || c == '~'
  }

  /** Characters with a structural meaning in a URL or a query string. */
  predicate IsDelimiter(c: char)
  {
    c == '&' || c == '=' || c == '?' || c == '#'
  }

  predicate IsHex(c: char)
  {
    '0' <= c <= '9' || 'a' <= c <= 'f' || 'A' <= c <= 'F'
  }

  /** Upper-case hexadecimal digit, as `quote` writes them. */
  function HexDigit(n: nat): (c: char)
    requires n < 16
    ensures IsHex(c) && !IsDelimiter(c) && c != '+'
  {
    if n < 10 then ('0' as int + n) as char else ('A' as int + n - 10) as char
  }

  function HexValue(c: char): (n: nat)
    requires IsHex(c)
    ensures n < 16
  {
    if '0' <= c <= '9' then c as int - '0' as int
    else if 'a' <= c <= 'f' then c as int - 'a' as int + 10
    else c as int - 'A' as int + 10
  }

  /** `quote_plus` with no extra safe characters, on one character. */
  function QuoteChar(c: char): string
  {
    if AlwaysSafe(c) then [c]
    else if c == ' ' then ['+']
    else if c as int < 128 then ['%', HexDigit(c as int / 16), HexDigit(c as int % 16)]
    else [c]
  }

  /** `quote_plus(s, safe='')`: the result holds no query or URL delimiter. */
  function QuotePlus(s: string): (r: string)
    ensures |r| >= |s|
    ensures forall i :: 0 <= i < |r| ==> !IsDelimiter(r[i])
  {
    if s == [] then [] else QuoteChar(s[0]) + QuotePlus(s[1..])
  }

  /** `value.replace('+', ' ')`. */
  function PlusToSpace(s: string): (r: string)
    ensures |r| == |s|
  {
    if s == [] then [] else [if s[0] == '+' then ' ' else s[0]] + PlusToSpace(s[1..])
  }

  /** `unquote`: every `%` followed by two hexadecimal digits becomes the character with that code. */
  function Unquote(s: string): (r: string)
    ensures |r| <= |s|
    ensures |s| > 0 ==> |r| > 0
  {
    if |s| >= 3 && s[0] == '%' && IsHex(s[1]) && IsHex(s[2]) then
      [(HexValue(s[1]) * 16 + HexValue(s[2])) as char] + Unquote(s[3..])
    else if s == [] then []
    else [s[0]] + Unquote(s[1..])
  }

  /** How `parse_qsl` decodes a raw key or value. */
  function Decode(s: string): (r: string)
    ensures |s| > 0 ==> |r| > 0
  {
    Unquote(PlusToSpace(s))
  }

  lemma {:induction false} PlusToSpaceAppend(a: string, b: string)
    ensures PlusToSpace(a + b) == PlusToSpace(a) + PlusToSpace(b)
  {
    if a != [] {
      assert (a + b)[0] == a[0];
      assert (a + b)[1..] == a[1..] + b;
      PlusToSpaceAppend(a[1..], b);
    } else {
      assert a + b == b;
    }
  }

  lemma DecodeQuoteChar(c: char, rest: string)
    ensures Unquote(PlusToSpace(QuoteChar(c)) + rest) == [c] + Unquote(rest)
  {
    var q := QuoteChar(c);
    if AlwaysSafe(c) || c == ' ' || c as int >= 128 {
      var s := PlusToSpace(q) + rest;
      assert s[0] == c && s[1..] == rest;
    } else {
      var n := c as int;
      var s := PlusToSpace(q) + rest;
      NoPlusUnchanged(q);
      assert s[1] == HexDigit(n / 16) && s[2] == HexDigit(n % 16);
      assert HexValue(s[1]) == n / 16 && HexValue(s[2]) == n % 16;
      assert s[3..] == rest;
    }
  }

  lemma {:induction false} NoPlusUnchanged(s: string)
    requires '+' !in s
    ensures PlusToSpace(s) == s
  {
    if s != [] {
      NoPlusUnchanged(s[1..]);
    }
  }

  /** Decoding undoes `quote_plus` on every string. */
  lemma {:induction false} DecodeQuotePlus(s: string)
    ensures Decode(QuotePlus(s)) == s
  {
    if s != [] {
      PlusToSpaceAppend(QuoteChar(s[0]), QuotePlus(s[1..]));
      DecodeQuoteChar(s[0], PlusToSpace(QuotePlus(s[1..])));
      DecodeQuotePlus(s[1..]);
    }
  }

  lemma {:induction false} UnquotePlain(s: string)
    requires '%' !in s
    ensures Unquote(s) == s
  {
    if s != [] {
      assert s[0] != '%';
      UnquotePlain(s[1..]);
    }
  }

  /** A string without `+` and `%` decodes to itself. */
  lemma DecodePlain(s: string)
    requires '+' !in s && '%' !in s
    ensures Decode(s) == s
  {
    NoPlusUnchanged(s);
    UnquotePlain(s);
  }

  // ---------------------------------------------------------- parse_qsl

  /** One decoded `key=value` field of a query string. */
  type Field = (string, string)

  /**
   * One `&`-separated segment: it is kept only when it has an `=` and a
   * non-blank raw value (`keep_blank_values` is false).
   */
  function DecodeField(segment: string): (r: Option<Field>)
    ensures r.Some? <==> ('=' in segment && Partition(segment, '=').2 != [])
    ensures r.Some? ==> |r.value.1| > 0
  {
    var (name, hasEq, value) := Partition(segment, '=');
    if hasEq && value != [] then Some((Decode(name), Decode(value))) else None
  }

  function DecodeFields(segments: seq<string>): (r: seq<Field>)
    ensures |r| <= |segments|
    ensures forall i :: 0 <= i < |r| ==> |r[i].1| > 0
  {
    if segments == [] then []
    else
      match DecodeField(segments[0])
      case Some(f) => [f] + DecodeFields(segments[1..])
      case None => DecodeFields(segments[1..])
  }

  /** `parse_qsl(query)`. */
  function ParseQsl(query: string): (r: seq<Field>)
    ensures forall i :: 0 <= i < |r| ==> |r[i].1| > 0
  {
    DecodeFields(Split(query, '&'))
  }

  // ------------------------------------------------------------ params

  /** A dict from keys to value lists, in insertion order. */
  type Params = seq<(string, seq<string>)>

  /** `params.get(key)`. */
  function Get(d: Params, key: string): Option<seq<string>>
  {
    if d == [] then None else if d[0].0 == key then Some(d[0].1) else Get(d[1..], key)
  }

  /** `params.get(key)` finds a key exactly when it is one of the keys, and then answers the first entry with it. */
  lemma {:induction false} GetFirst(d: Params, key: string)
    ensures Get(d, key).Some? <==> key in Keys(d)
    ensures key in Keys(d) ==> Get(d, key) == Some(d[IndexOf(Keys(d), key)].1)
  {
    if d != [] {
      assert Keys(d) == [d[0].0] + Keys(d[1..]);
      GetFirst(d[1..], key);
    }
  }

  function Keys(d: Params): (r: seq<string>)
    ensures |r| == |d|
  {
    if d == [] then [] else [d[0].0] + Keys(d[1..])
  }

  predicate DistinctKeys(d: Params)
  {
    d == [] || (Get(d[1..], d[0].0) == None && DistinctKeys(d[1..]))
  }

  predicate NonBlankValues(vs: seq<string>)
  {
    forall j :: 0 <= j < |vs| ==> |vs[j]| > 0
  }

  predicate NonBlankEntries(d: Params)
  {
    d == [] || (|d[0].1| > 0 && NonBlankValues(d[0].1) && NonBlankEntries(d[1..]))
  }

  /** What `parse_qs` can return: distinct keys, each with a non-empty list of non-blank values. */
  predicate WellFormed(d: Params)
  {
    DistinctKeys(d) && NonBlankEntries(d)
  }

  /** The values recorded for `key`, `[]` when absent. */
  function ValuesOf(d: Params, key: string): seq<string>
  {
    match Get(d, key)
    case Some(vs) => vs
    case None => []
  }

  /** `parse_qs` accumulating one field: append to the key's list, or add the key at the end. */
  function Add(d: Params, f: Field): (r: Params)
    ensures Get(r, f.0) == Some(ValuesOf(d, f.0) + [f.1])
    ensures forall k :: k != f.0 ==> Get(r, k) == Get(d, k)
    ensures Keys(r) == if Get(d, f.0).Some? then Keys(d) else Keys(d) + [f.0]
  {
    if d == [] then
      assert ValuesOf(d, f.0) + [f.1] == [f.1];
      assert Get([(f.0, [f.1])], f.0) == Some([f.1]);
      [(f.0, [f.1])]
    else if d[0].0 == f.0 then [(d[0].0, d[0].1 + [f.1])] + d[1..]
    else [d[0]] + Add(d[1..], f)
  }

  function GroupInto(d: Params, fields: seq<Field>): Params
    decreases fields
  {
    if fields == [] then d else GroupInto(Add(d, fields[0]), fields[1..])
  }

  /** `parse_qs(query)`. */
  function ParseQs(query: string): (r: Params)
    ensures WellFormed(r)
  {
    var fields := ParseQsl(query);
    GroupWellFormed([], fields);
    GroupInto([], fields)
  }

  lemma {:induction false} AddWellFormed(d: Params, f: Field)
    requires WellFormed(d) && |f.1| > 0
    ensures WellFormed(Add(d, f))
  {
    if d != [] && d[0].0 != f.0 {
      AddWellFormed(d[1..], f);
    }
  }

  lemma {:induction false} GroupWellFormed(d: Params, fields: seq<Field>)
    requires WellFormed(d)
    requires forall i :: 0 <= i < |fields| ==> |fields[i].1| > 0
    ensures WellFormed(GroupInto(d, fields))
    decreases fields
  {
    if fields != [] {
      AddWellFormed(d, fields[0]);
      GroupWellFormed(Add(d, fields[0]), fields[1..]);
    }
  }

  /** Every list a well-formed dict holds is non-empty and holds no blank value. */
  lemma {:induction false} GetWellFormed(d: Params, key: string)
    requires WellFormed(d) && Get(d, key).Some?
    ensures |Get(d, key).value| > 0 && NonBlankValues(Get(d, key).value)
  {
    if d[0].0 != key {
      GetWellFormed(d[1..], key);
    }
  }

  /** An empty query string parses to an empty dict. */
  lemma ParseQsEmpty()
    ensures ParseQs([]) == []
  {
    assert Split([], '&') == [[]];
    assert DecodeField([]) == None;
  }

  /**
   * A query of one `key=value` field whose text needs no decoding parses to
   * that single entry, whatever other characters the value holds.
   */
  lemma ParseQsSingle(key: string, value: string)
    requires value != []
    requires '&' !in key && '=' !in key && '+' !in key && '%' !in key
    requires '&' !in value && '+' !in value && '%' !in value
    ensures ParseQs(key + ['='] + value) == [(key, [value])]
  {
    var s := key + ['='] + value;
    assert '&' !in s by {
      forall i | 0 <= i < |s| ensures s[i] != '&' {
        if i < |key| { assert s[i] == key[i]; }
        else if i > |key| { assert s[i] == value[i - |key| - 1]; }
      }
    }
    assert Partition(s, '&') == (s, false, []);
    assert Split(s, '&') == [s];
    PartitionAt(key, '=', value);
    DecodePlain(key);
    DecodePlain(value);
    assert DecodeField(s) == Some((key, value));
    assert DecodeFields([s]) == [(key, value)] by {
      assert [s][1..] == [];
    }
    assert ParseQsl(s) == [(key, value)];
    assert Add([], (key, value)) == [(key, [value])];
    assert GroupInto([], [(key, value)]) == GroupInto([(key, [value])], []);
  }

  /** A field with a blank value, or with no `=` at all, is dropped: the query parses to nothing. */
  lemma ParseQsBlank(key: string)
    requires '&' !in key && '=' !in key
    ensures ParseQs(key + ['=']) == [] && ParseQs(key) == []
  {
    var s := key + ['='];
    assert Partition(s, '&') == (s, false, []);
    assert Split(s, '&') == [s];
    assert s + [] == s;
    PartitionAt(key, '=', []);
    assert DecodeField(s) == None;
    assert DecodeFields([s]) == [] by {
      assert [s][1..] == [];
    }
    assert Partition(key, '&') == (key, false, []);
    assert Split(key, '&') == [key];
    assert DecodeField(key) == None;
    assert DecodeFields([key]) == [] by {
      assert [key][1..] == [];
    }
  }

  /** `params[key] = values`: replace the entry in place, or add it at the end. */
  function Set(d: Params, key: string, values: seq<string>): (r: Params)
    ensures Get(r, key) == Some(values)
    ensures forall k :: k != key ==> Get(r, k) == Get(d, k)
    ensures Keys(r) == if Get(d, key).Some? then Keys(d) else Keys(d) + [key]
  {
    if d == [] then [(key, values)]
    else if d[0].0 == key then [(key, values)] + d[1..]
    else [d[0]] + Set(d[1..], key, values)
  }

  /** Overwriting with a non-empty list of non-blank values keeps a dict well formed. */
  lemma {:induction false} SetWellFormed(d: Params, key: string, values: seq<string>)
    requires WellFormed(d) && |values| > 0 && NonBlankValues(values)
    ensures WellFormed(Set(d, key, values))
  {
    if d != [] && d[0].0 != key {
      SetWellFormed(d[1..], key, values);
    }
  }

  // ---------------------------------------------------------- urlencode

  /** The (key, value) fields of one dict entry, in list order. */
  function EntryFields(key: string, values: seq<string>): (r: seq<Field>)
    ensures |r| == |values|
    ensures forall i :: 0 <= i < |r| ==> r[i] == (key, values[i])
  {
    if values == [] then [] else [(key, values[0])] + EntryFields(key, values[1..])
  }

  /** The fields `urlencode(d, doseq=True)` writes, entry by entry. */
  function Fields(d: Params): seq<Field>
  {
    if d == [] then [] else EntryFields(d[0].0, d[0].1) + Fields(d[1..])
  }

  function EncodeField(f: Field): (r: string)
  {
    QuotePlus(f.0) + ['='] + QuotePlus(f.1)
  }

  function EncodeFields(fields: seq<Field>): (r: seq<string>)
    ensures |r| == |fields|
    ensures forall i :: 0 <= i < |r| ==> r[i] == EncodeField(fields[i])
  {
    if fields == [] then [] else [EncodeField(fields[0])] + EncodeFields(fields[1..])
  }

  /** `urlencode(d, doseq=True)`. */
  function UrlEncode(d: Params): (r: string)
    ensures forall i :: 0 <= i < |r| ==> r[i] != '?' && r[i] != '#'
  {
    var segments := EncodeFields(Fields(d));
    forall i | 0 <= i < |segments|
      ensures '?' !in segments[i] && '#' !in segments[i]
    {
      assert segments[i] == EncodeField(Fields(d)[i]);
    }
    JoinExcludes(segments, '&', '?');
    JoinExcludes(segments, '&', '#');
    Join(segments, '&')
  }

  // --------------------------------------------------------- round trip

  lemma {:induction false} DecodeEncodeField(f: Field)
    requires |f.1| > 0
    ensures DecodeField(EncodeField(f)) == Some(f)
  {
    PartitionAt(QuotePlus(f.0), '=', QuotePlus(f.1));
    DecodeQuotePlus(f.0);
    DecodeQuotePlus(f.1);
  }

  lemma {:induction false} DecodeEncodeFields(fields: seq<Field>)
    requires forall i :: 0 <= i < |fields| ==> |fields[i].1| > 0
    ensures DecodeFields(EncodeFields(fields)) == fields
  {
    if fields != [] {
      DecodeEncodeField(fields[0]);
      var segments := EncodeFields(fields);
      assert segments[1..] == EncodeFields(fields[1..]);
      DecodeEncodeFields(fields[1..]);
    }
  }

  /** `parse_qsl` reads back every field `urlencode` wrote, in order. */
  lemma ParseQslEncode(fields: seq<Field>)
    requires forall i :: 0 <= i < |fields| ==> |fields[i].1| > 0
    ensures ParseQsl(Join(EncodeFields(fields), '&')) == fields
  {
    var segments := EncodeFields(fields);
    if segments != [] {
      forall i | 0 <= i < |segments|
        ensures '&' !in segments[i]
      {
        assert segments[i] == EncodeField(fields[i]);
      }
      SplitJoin(segments, '&');
    }
    DecodeEncodeFields(fields);
  }

  lemma {:induction false} GroupAppend(d: Params, a: seq<Field>, b: seq<Field>)
    ensures GroupInto(d, a + b) == GroupInto(GroupInto(d, a), b)
    decreases a
  {
    if a != [] {
      assert (a + b)[1..] == a[1..] + b;
      GroupAppend(Add(d, a[0]), a[1..], b);
    } else {
      assert a + b == b;
    }
  }

  lemma {:induction false} AddNew(d: Params, f: Field)
    requires Get(d, f.0) == None
    ensures Add(d, f) == d + [(f.0, [f.1])]
  {
    if d != [] {
      AddNew(d[1..], f);
    }
  }

  lemma {:induction false} AddLast(d: Params, key: string, values: seq<string>, v: string)
    requires Get(d, key) == None
    ensures Add(d + [(key, values)], (key, v)) == d + [(key, values + [v])]
  {
    if d != [] {
      assert (d + [(key, values)])[1..] == d[1..] + [(key, values)];
      AddLast(d[1..], key, values, v);
    }
  }

  lemma {:induction false} GroupEntryTail(d: Params, key: string, values: seq<string>, more: seq<string>)
    requires Get(d, key) == None
    ensures GroupInto(d + [(key, values)], EntryFields(key, more)) == d + [(key, values + more)]
    decreases more
  {
    if more == [] {
      assert values + more == values;
    } else {
      var e := EntryFields(key, more);
      assert e[0] == (key, more[0]) && e[1..] == EntryFields(key, more[1..]);
      AddLast(d, key, values, more[0]);
      GroupEntryTail(d, key, values + [more[0]], more[1..]);
      assert values + [more[0]] + more[1..] == values + more;
    }
  }

  lemma GetAppend(d: Params, key: string, values: seq<string>, k: string)
    ensures Get(d + [(key, values)], k) ==
      if Get(d, k).Some? then Get(d, k) else if k == key then Some(values) else None
  {
    if d != [] {
      assert (d + [(key, values)])[1..] == d[1..] + [(key, values)];
      GetAppend(d[1..], key, values, k);
    }
  }

  /** Grouping the fields of one entry whose key is new appends that entry. */
  lemma GroupEntry(acc: Params, key: string, values: seq<string>)
    requires Get(acc, key) == None && |values| > 0
    ensures GroupInto(acc, EntryFields(key, values)) == acc + [(key, values)]
  {
    var e := EntryFields(key, values);
    assert e[0] == (key, values[0]) && e[1..] == EntryFields(key, values[1..]);
    AddNew(acc, (key, values[0]));
    GroupEntryTail(acc, key, [values[0]], values[1..]);
    assert [values[0]] + values[1..] == values;
  }

  /** Grouping the fields of a dict whose first key is new: its first entry is appended whole. */
  lemma GroupFieldsStep(acc: Params, d: Params)
    requires d != [] && Get(acc, d[0].0) == None && |d[0].1| > 0
    ensures GroupInto(acc, Fields(d)) == GroupInto(acc + [d[0]], Fields(d[1..]))
  {
    var key, values := d[0].0, d[0].1;
    GroupEntry(acc, key, values);
    assert Fields(d) == EntryFields(key, values) + Fields(d[1..]);
    GroupAppend(acc, EntryFields(key, values), Fields(d[1..]));
  }

  /** Every key a dict holds is found by `Get`. */
  lemma {:induction false} GetHasKey(d: Params, i: nat)
    requires i < |d|
    ensures Get(d, d[i].0).Some?
  {
    if i > 0 && d[0].0 != d[i].0 {
      assert d[1..][i - 1] == d[i];
      GetHasKey(d[1..], i - 1);
    }
  }

  /** No key of `d` is in `acc`. */
  predicate FreshKeys(acc: Params, d: Params)
  {
    forall i :: 0 <= i < |d| ==> Get(acc, d[i].0) == None
  }

  /** The keys of the rest of a dict with distinct keys are still new after its first entry. */
  lemma FreshKeysTail(acc: Params, d: Params)
    requires d != [] && DistinctKeys(d) && FreshKeys(acc, d)
    ensures FreshKeys(acc + [d[0]], d[1..])
  {
    var tail := d[1..];
    forall i | 0 <= i < |tail|
      ensures Get(acc + [d[0]], tail[i].0) == None
    {
      assert tail[i] == d[i + 1];
      GetHasKey(tail, i);
      GetAppend(acc, d[0].0, d[0].1, tail[i].0);
    }
  }

  /** Grouping the fields of a well-formed dict after entries with other keys appends that dict. */
  lemma {:induction false} GroupFields(acc: Params, d: Params)
    requires WellFormed(d) && FreshKeys(acc, d)
    ensures GroupInto(acc, Fields(d)) == acc + d
    decreases d
  {
    if d == [] {
      assert acc + d == acc;
    } else {
      GroupFieldsStep(acc, d);
      FreshKeysTail(acc, d);
      GroupFields(acc + [d[0]], d[1..]);
      HeadTail(acc, d);
    }
  }

  lemma {:induction false} FieldsNonBlank(d: Params)
    requires NonBlankEntries(d)
    ensures forall i :: 0 <= i < |Fields(d)| ==> |Fields(d)[i].1| > 0
  {
    if d != [] {
      FieldsNonBlank(d[1..]);
      var e := EntryFields(d[0].0, d[0].1);
      assert Fields(d) == e + Fields(d[1..]);
      forall i | 0 <= i < |Fields(d)|
        ensures |Fields(d)[i].1| > 0
      {
        if i < |e| {
          assert e[i] == (d[0].0, d[0].1[i]);
        } else {
          assert Fields(d)[i] == Fields(d[1..])[i - |e|];
        }
      }
    }
  }

  /** `parse_qs(urlencode(d, doseq=True)) == d` for every dict `parse_qs` can produce. */
  lemma ParseQsUrlEncode(d: Params)
    requires WellFormed(d)
    ensures ParseQs(UrlEncode(d)) == d
  {
    FieldsNonBlank(d);
    ParseQslEncode(Fields(d));
    GroupFields([], d);
  }
}
