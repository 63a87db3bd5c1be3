/**
 * Preselected filters from the page address (script.js:756-769): every
 * query parameter `filter_<Column>=v1,v2` (or plain `<Column>=v1,v2`)
 * names a column and the values to check in its picker.
 */
module Query {
  import opened Wrappers
  import opened SeqUtil
  import opened JsString

  /** Column name to the values to preselect. */
  type Filters = map<string, seq<string>>

  const FilterPrefix: string := "filter_"

  /** `k.replace(/^filter_/, '')`: one leading `filter_` removed, anything else kept. */
  function StripFilterPrefix(k: string): (col: string)
    ensures StartsWith(k, FilterPrefix) ==> k == FilterPrefix + col
    ensures !StartsWith(k, FilterPrefix) ==> col == k
  {
    if StartsWith(k, FilterPrefix) then k[|FilterPrefix|..] else k
  }

  /** Only the first `filter_` is removed: `filter_filter_X` names the column `filter_X`. */
  lemma StripOnce(col: string)
    ensures StripFilterPrefix(FilterPrefix + col) == col
  {
    assert (FilterPrefix + col)[..|FilterPrefix|] == FilterPrefix;
  }

  /** `decodeURIComponent` applied to each piece; None when one of them throws. */
  function DecodeAll(pieces: seq<string>, decode: string -> Option<string>): (r: Option<seq<string>>)
    ensures r.Some? <==> forall i :: 0 <= i < |pieces| ==> decode(pieces[i]).Some?
    ensures r.Some? ==> |r.value| == |pieces| && forall i :: 0 <= i < |pieces| ==> decode(pieces[i]) == Some(r.value[i])
  {
    if pieces == [] then Some([])
    else
      match decode(pieces[0])
      case None => None
      case Some(first) =>
        match DecodeAll(pieces[1..], decode)
        case None =>
          assert exists i :: 0 <= i < |pieces[1..]| && decode(pieces[1..][i]).None?;
          None
        case Some(rest) =>
          assert forall i :: 1 <= i < |pieces| ==> pieces[i] == pieces[1..][i - 1];
          Some([first] + rest)
  }

  /** `v.split(',').map(s => decodeURIComponent(s).trim()).filter(Boolean)`. */
  function ValueTokens(v: string, decode: string -> Option<string>): Option<seq<string>> {
    match DecodeAll(Split(v, ','), decode)
    case None => None
    case Some(decoded) => Some(Filter(TrimAll(decoded), NonEmpty))
  }

  /** The filters after the parameters in order: a later parameter for the same column replaces an earlier one. */
  function FiltersOf(params: seq<(string, string)>, decode: string -> Option<string>): Option<Filters> {
    if params == [] then Some(map[])
    else
      match FiltersOf(params[..|params| - 1], decode)
      case None => None
      case Some(prev) =>
        var (k, v) := params[|params| - 1];
        match ValueTokens(v, decode)
        case None => None
        case Some(tokens) => Some(prev[StripFilterPrefix(k) := tokens])
  }

  /** `parseFiltersFromQuery`: the loop over `params.entries()`; None when decoding throws. */
  method ParseFiltersFromQuery(params: seq<(string, string)>, decode: string -> Option<string>)
    returns (filters: Option<Filters>)
    ensures filters == FiltersOf(params, decode)
  {
    var acc: Filters := map[];
    var i := 0;
    while i < |params|
      invariant 0 <= i <= |params|
      invariant FiltersOf(params[..i], decode) == Some(acc)
    {
      assert params[..i + 1][..i] == params[..i];
      var (k, v) := params[i];
      var tokens := ValueTokens(v, decode);
      if tokens.None? {
        assert FiltersOf(params[..i + 1], decode) == None;
        FailurePersists(params, decode, i + 1);
        return None;
      }
      acc := acc[StripFilterPrefix(k) := tokens.value];
      i := i + 1;
    }
    assert params[..i] == params;
    filters := Some(acc);
  }

  /** Once a prefix of the parameters fails to decode, the whole query does. */
  lemma {:induction false} FailurePersists(params: seq<(string, string)>, decode: string -> Option<string>, n: nat)
    requires n <= |params| && FiltersOf(params[..n], decode).None?
    ensures FiltersOf(params, decode).None?
    decreases |params| - n
  {
    if n < |params| {
      assert params[..n + 1][..n] == params[..n];
      FailurePersists(params, decode, n + 1);
    } else {
      assert params[..n] == params;
    }
  }

  /** Every stored value is trimmed and non-empty. */
  lemma {:induction false} TokensTrimmedNonEmpty(v: string, decode: string -> Option<string>)
    requires ValueTokens(v, decode).Some?
    ensures forall t :: t in ValueTokens(v, decode).value ==> t != "" && Trim(t) == t
  {
    var decoded := DecodeAll(Split(v, ','), decode).value;
    forall t | t in ValueTokens(v, decode).value ensures t != "" && Trim(t) == t {
      FilterMember(TrimAll(decoded), NonEmpty, t);
      var i :| 0 <= i < |decoded| && TrimAll(decoded)[i] == t;
      TrimIdempotent(decoded[i]);
    }
  }

  /** A column is a key iff some parameter names it, with or without `filter_`. */
  lemma FiltersOfKeys(params: seq<(string, string)>, decode: string -> Option<string>, col: string)
    requires FiltersOf(params, decode).Some?
    ensures col in FiltersOf(params, decode).value <==> exists i :: 0 <= i < |params| && StripFilterPrefix(params[i].0) == col
  {
    KeysLastNaming(params, decode, col);
    var r := LastNaming(params, col);
    if exists i :: 0 <= i < |params| && StripFilterPrefix(params[i].0) == col {
      var i :| 0 <= i < |params| && StripFilterPrefix(params[i].0) == col;
      assert r >= i;
    }
  }

  lemma {:induction false} KeysLastNaming(params: seq<(string, string)>, decode: string -> Option<string>, col: string)
    requires FiltersOf(params, decode).Some?
    ensures col in FiltersOf(params, decode).value <==> LastNaming(params, col) >= 0
  {
    if params != [] {
      KeysLastNaming(params[..|params| - 1], decode, col);
    }
  }

  /** The index of the last parameter that names col, or -1 when none does. */
  function LastNaming(params: seq<(string, string)>, col: string): (r: int)
    ensures -1 <= r < |params|
    ensures r >= 0 ==> StripFilterPrefix(params[r].0) == col
    ensures forall j :: r < j < |params| ==> StripFilterPrefix(params[j].0) != col
  {
    if params == [] then -1
    else if StripFilterPrefix(params[|params| - 1].0) == col then |params| - 1
    else
      var r := LastNaming(params[..|params| - 1], col);
      assert forall j :: r < j < |params| - 1 ==> params[j] == params[..|params| - 1][j];
      r
  }

  /** A column's values are the tokens of the last parameter that names it. */
  lemma {:induction false} FiltersOfLastWins(params: seq<(string, string)>, decode: string -> Option<string>, col: string)
    requires FiltersOf(params, decode).Some? && col in FiltersOf(params, decode).value
    ensures LastNaming(params, col) >= 0
    ensures ValueTokens(params[LastNaming(params, col)].1, decode) == Some(FiltersOf(params, decode).value[col])
  {
    var n := |params| - 1;
    var init := params[..n];
    var (k, v) := params[n];
    if StripFilterPrefix(k) != col {
      FiltersOfLastWins(init, decode, col);
      assert params[LastNaming(init, col)] == init[LastNaming(init, col)];
    }
  }

  /** Every value stored for any column is trimmed and non-empty. */
  lemma FiltersOfTrimmed(params: seq<(string, string)>, decode: string -> Option<string>, col: string, t: string)
    requires FiltersOf(params, decode).Some? && col in FiltersOf(params, decode).value
    requires t in FiltersOf(params, decode).value[col]
    ensures t != "" && Trim(t) == t
  {
    FiltersOfLastWins(params, decode, col);
    TokensTrimmedNonEmpty(params[LastNaming(params, col)].1, decode);
  }

  /** The empty parameter value stores no values. */
  lemma EmptyValueNoTokens(decode: string -> Option<string>)
    requires decode("") == Some("")
    ensures ValueTokens("", decode) == Some([])
  {
    assert Split("", ',') == [""];
    assert [""][0] == "";
    DecodeAllIdentity([""], decode);
    assert TrimAll([""]) == [""];
    FilterNone([""], NonEmpty);
  }

  /**
   * Writing trimmed, non-empty, comma-free values joined by commas (with a
   * decoder that leaves them alone) and parsing them again gives them back.
   */
  lemma ValueTokensRoundTrip(tokens: seq<string>, decode: string -> Option<string>)
    requires |tokens| >= 1
    requires forall i :: 0 <= i < |tokens| ==> tokens[i] != "" && Trim(tokens[i]) == tokens[i] && ',' !in tokens[i]
    requires forall i :: 0 <= i < |tokens| ==> decode(tokens[i]) == Some(tokens[i])
    ensures ValueTokens(Join(tokens, ","), decode) == Some(tokens)
  {
    SplitJoin(tokens, ',');
    assert [','] == ",";
    DecodeAllIdentity(tokens, decode);
    TrimAllIdentity(tokens);
    FilterAll(tokens, NonEmpty);
  }

  lemma DecodeAllIdentity(pieces: seq<string>, decode: string -> Option<string>)
    requires forall i :: 0 <= i < |pieces| ==> decode(pieces[i]) == Some(pieces[i])
    ensures DecodeAll(pieces, decode) == Some(pieces)
  {
    var r := DecodeAll(pieces, decode);
    assert r.value == pieces;
  }
}
