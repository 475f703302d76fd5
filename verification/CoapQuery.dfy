/**
 * Splitting the query of a CoAP request, `key=value` parameters joined by '&' as in section 5.10.1 of RFC 7252,
 * into a linked list: what the tokenizer and the list builder compute, and the round trip with joining.
 */
module CoapQuery {
  import opened Machine

  datatype Param = Param(key: string, value: string)

  // ---------- specification ----------

  /** How far a string goes before the character c, or to its end. */
  function Span(s: string, c: char): (n: nat)
    ensures n <= |s|
    ensures forall i :: 0 <= i < n ==> s[i] != c
    ensures n < |s| ==> s[n] == c
  {
    if s == "" || s[0] == c then 0 else 1 + Span(s[1..], c)
  }

  /** What a C function sees of a buffer: everything before the first NUL. */
  function CString(s: string): (r: string)
    ensures '\0' !in r
  {
    s[..Span(s, '\0')]
  }

  /** The nonempty pieces between the '&'. */
  function Tokens(s: string): seq<string>
    decreases |s|
  {
    if s == "" then []
    else if s[0] == '&' then Tokens(s[1..])
    else [s[..Span(s, '&')]] + Tokens(s[Span(s, '&')..])
  }

  /** A piece is cut at its first '='; without one it is all key. */
  function Cut(s: string): Param {
    var n := Span(s, '=');
    if n == |s| then Param(s, "") else Param(s[..n], s[n + 1..])
  }

  function CutAll(ts: seq<string>): (ps: seq<Param>)
    ensures |ps| == |ts| && forall i :: 0 <= i < |ts| ==> ps[i] == Cut(ts[i])
  {
    seq(|ts|, i requires 0 <= i < |ts| => Cut(ts[i]))
  }

  function Split(query: string): seq<Param> {
    CutAll(Tokens(CString(query)))
  }

  // ---------- the program ----------

  class Query {
    var key: string
    var value: string
    var next: Query?

    constructor (key: string, value: string)
      ensures this.key == key && this.value == value && next == null
    {
      this.key, this.value, next := key, value, null;
    }
  }

  class Queries {
    var num: uint8
    var first: Query?

    constructor ()
    {
      num, first := 0, null;
    }
  }

  /** The list from first visits these nodes, one after the other, and ends. */
  ghost predicate IsList(first: Query?, nodes: seq<Query>)
    reads nodes
  {
    && first == (if nodes == [] then null else nodes[0])
    && (forall i :: 0 <= i < |nodes| ==> nodes[i].next == if i + 1 < |nodes| then nodes[i + 1] else null)
    && (forall i, j :: 0 <= i < j < |nodes| ==> nodes[i] != nodes[j])
  }

  function LastOf(nodes: seq<Query>): Query? {
    if nodes == [] then null else nodes[|nodes| - 1]
  }

  function Contents(nodes: seq<Query>): (ps: seq<Param>)
    reads nodes
    ensures |ps| == |nodes| && forall i :: 0 <= i < |nodes| ==> ps[i] == Param(nodes[i].key, nodes[i].value)
  {
    seq(|nodes|, i requires 0 <= i < |nodes| reads nodes => Param(nodes[i].key, nodes[i].value))
  }

  /** strlen and memcpy: the string that starts at a place of the buffer. */
  method ReadString(buffer: array<char>, start: nat) returns (s: string)
    requires start < buffer.Length && buffer[buffer.Length - 1] == '\0'
    ensures s == CString(buffer[start..])
  {
    var end := start;
    while buffer[end] != '\0'
      invariant start <= end < buffer.Length
      invariant forall i :: start <= i < end ==> buffer[i] != '\0'
      decreases buffer.Length - end
    {
      end := end + 1;
    }
    SpanIs(buffer[start..], '\0', end - start);
    s := buffer[start..end];
    assert buffer[start..][..end - start] == buffer[start..end];
  }

  /** Links a node behind the last one. */
  method Append(result: Queries, last: Query?, current: Query, ghost nodes: seq<Query>)
    requires IsList(result.first, nodes) && last == LastOf(nodes)
    requires current !in nodes && current.next == null
    modifies result, if last == null then {} else {last}
    ensures IsList(result.first, nodes + [current])
    ensures Contents(nodes + [current]) == old(Contents(nodes)) + [Param(current.key, current.value)]
    ensures result.num == old(result.num)
  {
    if last == null {
      result.first := current;
    } else {
      last.next := current;
    }
  }

  /** The node for one token: its key and value, without the '=' between them. */
  method NewNode(token: string) returns (current: Query)
    ensures fresh(current) && current.next == null && Param(current.key, current.value) == Cut(token)
  {
    var lenkey := IndexOf(token, '=');
    if lenkey == -1 {
      current := new Query(token, "");
    } else {
      current := new Query(token[..lenkey], token[lenkey + 1..]);
    }
  }

  /** The saved position of strtok in the buffer it cuts up. */
  class Tokenizer {
    const buffer: array<char>
    var saved: nat

    ghost predicate Valid()
      reads this, buffer
    {
      saved < buffer.Length && buffer[buffer.Length - 1] == '\0'
    }

    /** What has not been tokenized yet. */
    ghost function Rest(): string
      reads this, buffer
      requires Valid()
    {
      CString(buffer[saved..])
    }

    constructor (buffer: array<char>)
      requires buffer.Length > 0 && buffer[buffer.Length - 1] == '\0'
      ensures this.buffer == buffer && Valid() && Rest() == CString(buffer[..])
    {
      this.buffer, saved := buffer, 0;
      new;
      assert buffer[0..] == buffer[..];
    }

    /** Moves over the delimiters before the next token. */
    method SkipDelimiters()
      requires Valid()
      modifies this
      ensures Valid() && buffer[saved] != '&'
      ensures Tokens(Rest()) == Tokens(old(Rest()))
    {
      while buffer[saved] == '&'
        invariant Valid() && Tokens(Rest()) == Tokens(old(Rest()))
        decreases buffer.Length - saved
      {
        CStringStep(buffer[saved..]);
        assert buffer[saved..][1..] == buffer[saved + 1..];
        saved := saved + 1;
      }
    }

    /** strtok(NULL, "&"): the start of the next token, which is ended by a NUL written over its delimiter. */
    method Next() returns (found: bool, start: nat)
      requires Valid()
      modifies this, buffer
      ensures Valid()
      ensures found <==> Tokens(old(Rest())) != []
      ensures found ==> start < buffer.Length
                        && [CString(buffer[start..])] + Tokens(Rest()) == Tokens(old(Rest()))
    {
      hide Tokens, CString, Span;
      SkipDelimiters();
      start := saved;
      if buffer[saved] == '\0' {
        NothingLeft(buffer[saved..]);
        return false, start;
      }
      var end := start;
      while buffer[end] != '&' && buffer[end] != '\0'
        invariant start <= end < buffer.Length
        invariant forall i :: start <= i < end ==> buffer[i] != '&' && buffer[i] != '\0'
        decreases buffer.Length - end
      {
        end := end + 1;
      }
      ghost var rest := buffer[start..];
      TokenAt(rest, end - start);
      assert rest[end - start..] == buffer[end..];
      ghost var token := buffer[start..end];
      EndToken(end);
      assert buffer[start..end] == buffer[..end][start..] == token;
      assert buffer[start..][..end - start] == token == rest[..end - start];
      CStringIs(buffer[start..], end - start);
      found := true;
    }

    /** The next token as the string that the loop takes from it. */
    method NextToken() returns (found: bool, token: string)
      requires Valid()
      modifies this, buffer
      ensures Valid()
      ensures found <==> Tokens(old(Rest())) != []
      ensures found ==> [token] + Tokens(Rest()) == Tokens(old(Rest()))
    {
      hide Tokens, CString, Span;
      var start: nat;
      token := "";
      found, start := Next();
      if found {
        token := ReadString(buffer, start);
      }
    }

    /** Writes the NUL, and goes on behind it. */
    method EndToken(end: nat)
      requires Valid() && end < buffer.Length && (buffer[end] == '&' || buffer[end] == '\0')
      modifies this, buffer
      ensures Valid() && buffer[end] == '\0' && buffer[..end] == old(buffer[..end])
      ensures Tokens(Rest()) == Tokens(CString(old(buffer[end..])))
    {
      if buffer[end] == '\0' {
        saved := end;
      } else {
        CStringStep(buffer[end..]);
        ghost var behind := buffer[end + 1..];
        assert buffer[end..][1..] == behind;
        buffer[end] := '\0';
        saved := end + 1;
        assert buffer[saved..] == behind;
      }
    }
  }

  /** index_of: the distance to the first match, or -1. */
  method IndexOf(s: string, search: char) returns (index: int)
    ensures index == if Span(s, search) == |s| then -1 else Span(s, search)
  {
    var i := 0;
    while i < |s|
      invariant i <= |s| && forall j :: 0 <= j < i ==> s[j] != search
    {
      if s[i] == search {
        SpanIs(s, search, i);
        return i;
      }
      i := i + 1;
    }
    return -1;
  }

  /** A terminated copy of the query, about to be tokenized. */
  method WorkingCopy(query: string) returns (strtok: Tokenizer)
    ensures fresh(strtok) && fresh(strtok.buffer) && strtok.Valid()
    ensures strtok.Rest() == CString(query)
  {
    var working := new char[|query| + 1](i => if 0 <= i < |query| then query[i] else '\0');
    assert working[..] == query + ['\0'];
    CStringTerminated(query);
    strtok := new Tokenizer(working);
  }

  /** num++ on a byte. */
  function Increment(num: uint8): uint8 {
    if num == 255 then 0 else num + 1
  }

  lemma IncrementCounts(num: uint8, n: nat)
    requires num as int == n % 256
    ensures Increment(num) as int == (n + 1) % 256
  {
  }

  /** One round of the loop: a token becomes the new last node. */
  method AddToken(token: string, result: Queries, last: Query?, ghost nodes: seq<Query>) returns (current: Query)
    requires IsList(result.first, nodes) && last == LastOf(nodes)
    modifies result, if last == null then {} else {last}
    ensures fresh(current) && IsList(result.first, nodes + [current])
    ensures Contents(nodes + [current]) == old(Contents(nodes)) + [Cut(token)]
    ensures LastOf(nodes + [current]) == current
    ensures result.num == Increment(old(result.num))
  {
    result.num := Increment(result.num);
    current := NewNode(token);
    Append(result, last, current, nodes);
  }

  /** The list has one node for each parameter, in order; its length is counted in one byte. */
  method SplitQuery(query: string, result: Queries) returns (ghost nodes: seq<Query>)
    modifies result
    ensures fresh(nodes) && IsList(result.first, nodes)
    ensures Contents(nodes) == Split(query)
    ensures result.num as int == |nodes| % 256
  {
    hide Tokens, CString, Span, Cut, CutAll, Contents, IsList, Tokenizer.Rest, Increment;
    result.num := 0;
    result.first := null;
    nodes := [];
    EmptyList();
    var strtok := WorkingCopy(query);
    ghost var left := Tokens(strtok.Rest());
    var found, token := strtok.NextToken();
    var last: Query? := null;
    while found
      invariant strtok.Valid() && fresh(nodes)
      invariant IsList(result.first, nodes) && last == LastOf(nodes)
      invariant result.num as int == |nodes| % 256
      invariant Contents(nodes) + CutAll(left) == Split(query)
      invariant found <==> left != []
      invariant found ==> [token] + Tokens(strtok.Rest()) == left
      decreases |left|
    {
      MoveOver(Contents(nodes), token, left[1..], Split(query));
      IncrementCounts(result.num, |nodes|);
      left := left[1..];
      var current := AddToken(token, result, last, nodes);
      last := current;
      nodes := nodes + [current];
      found, token := strtok.NextToken();
    }
  }

  lemma EmptyList()
    ensures IsList(null, []) && Contents([]) == [] && LastOf([]) == null
  {
  }

  lemma MoveOver(done: seq<Param>, t: string, ts: seq<string>, all: seq<Param>)
    requires done + CutAll([t] + ts) == all
    ensures (done + [Cut(t)]) + CutAll(ts) == all
  {
    hide Cut;
    CutAllSplits(t, ts);
  }

  lemma CutAllSplits(t: string, ts: seq<string>)
    ensures CutAll([t] + ts) == [Cut(t)] + CutAll(ts)
  {
  }

  /** free_coap_query reaches every node of the list, once each. */
  method FreeCoapQuery(queries: Queries, ghost nodes: seq<Query>) returns (freed: seq<Query>)
    requires IsList(queries.first, nodes)
    ensures freed == nodes
  {
    freed := [];
    var current := queries.first;
    while current != null
      invariant |freed| <= |nodes| && freed == nodes[..|freed|]
      invariant current == if |freed| < |nodes| then nodes[|freed|] else null
      decreases |nodes| - |freed|
    {
      var next := current.next;
      ghost var k := |freed|;
      assert nodes[k].next == if k + 1 < |nodes| then nodes[k + 1] else null;
      freed := freed + [current];
      current := next;
    }
  }

  // ---------- lemmas about strings ----------

  lemma {:induction false} SpanIs(s: string, c: char, n: nat)
    requires n <= |s| && (n < |s| ==> s[n] == c) && forall i :: 0 <= i < n ==> s[i] != c
    ensures Span(s, c) == n
  {
    if n > 0 {
      SpanIs(s[1..], c, n - 1);
    }
  }

  lemma CStringStep(s: string)
    requires s != ""
    ensures CString(s) == if s[0] == '\0' then "" else [s[0]] + CString(s[1..])
  {
  }

  lemma NothingLeft(s: string)
    requires s != "" && s[0] == '\0'
    ensures Tokens(CString(s)) == []
  {
  }

  lemma CStringIs(s: string, n: nat)
    requires n < |s| && s[n] == '\0' && forall i :: 0 <= i < n ==> s[i] != '\0'
    ensures CString(s) == s[..n]
  {
    SpanIs(s, '\0', n);
  }

  lemma CStringTerminated(query: string)
    ensures CString(query + ['\0']) == CString(query)
  {
    var n := Span(query, '\0');
    SpanIs(query + ['\0'], '\0', n);
    assert (query + ['\0'])[..n] == query[..n];
  }

  /** A buffer that starts with n characters of a token, then a delimiter or the end. */
  lemma TokenAt(s: string, n: nat)
    requires 0 < n < |s| && (s[n] == '&' || s[n] == '\0')
    requires forall i :: 0 <= i < n ==> s[i] != '&' && s[i] != '\0'
    ensures Tokens(CString(s)) == [s[..n]] + Tokens(CString(s[n..]))
  {
    var m := Span(s, '\0');
    assert n <= m;
    SpanIs(s[n..], '\0', m - n);
    var t := CString(s);
    SpanIs(t, '&', n);
    assert t[..n] == s[..n];
    assert t[n..] == CString(s[n..]);
  }

  // ---------- what splitting means ----------

  /** A piece of a query that stands for the parameter: its key alone will do if the value is empty. */
  predicate Writes(t: string, p: Param) {
    '=' !in p.key && (t == p.key + "=" + p.value || (t == p.key && p.value == ""))
  }

  /** A piece stands for one parameter, and cutting finds it. */
  lemma CutExactly(t: string, p: Param)
    ensures Cut(t) == p <==> Writes(t, p)
  {
    if Writes(t, p) {
      SpanIs(t, '=', |p.key|);
    }
    var n := Span(t, '=');
    assert n < |t| ==> t == t[..n] + "=" + t[n + 1..];
  }

  lemma {:induction false} TokensAppend(s: string, rest: string)
    ensures Tokens(s + "&" + rest) == Tokens(s) + Tokens(rest)
    decreases |s|
  {
    var t := s + "&" + rest;
    if s == "" {
      assert t[1..] == rest;
    } else if s[0] == '&' {
      assert t[1..] == s[1..] + "&" + rest;
      TokensAppend(s[1..], rest);
    } else {
      var n := Span(s, '&');
      SpanIs(t, '&', n);
      assert t[..n] == s[..n] && t[n..] == s[n..] + "&" + rest;
      TokensAppend(s[n..], rest);
    }
  }

  lemma CStringWhole(s: string)
    requires '\0' !in s
    ensures CString(s) == s
  {
    SpanIs(s, '\0', |s|);
  }

  lemma CStringStops(s: string, rest: string)
    requires '\0' !in s
    ensures CString(s + "\0" + rest) == s
  {
    SpanIs(s + "\0" + rest, '\0', |s|);
  }

  /** A query can be split at any '&' of it, and ends at the first NUL; the empty query has no parameters. */
  lemma SplitAtDelimiter(s: string, rest: string)
    requires '\0' !in s
    ensures Split("") == [] && Split(s + "&" + rest) == Split(s) + Split(rest) && Split(s + "\0" + rest) == Split(s)
  {
    hide Tokens, Cut;
    CStringWhole(s);
    CStringStops(s, rest);
    TokensAppend(s, CString(rest));
    CStringBehind(s + "&", rest);
    NoTokens();
    var ts, us := Tokens(s), Tokens(CString(rest));
    assert CutAll(ts + us) == CutAll(ts) + CutAll(us);
  }

  lemma NoTokens()
    ensures Tokens(CString("")) == []
  {
  }

  lemma CStringBehind(s: string, rest: string)
    requires '\0' !in s
    ensures CString(s + rest) == s + CString(rest)
  {
    var n := Span(rest, '\0');
    SpanIs(s + rest, '\0', |s| + n);
    assert (s + rest)[..|s| + n] == s + rest[..n];
  }

  /** What is left of a query between two '&'. */
  predicate Piece(t: string) {
    t != "" && '&' !in t && '\0' !in t
  }

  lemma OneToken(t: string)
    requires Piece(t)
    ensures Tokens(t) == [t]
  {
    SpanIs(t, '&', |t|);
    assert t[..|t|] == t;
  }

  /** Pieces joined by '&'. */
  function Join(ts: seq<string>): string {
    if ts == [] then ""
    else if |ts| == 1 then ts[0]
    else ts[0] + "&" + Join(ts[1..])
  }

  predicate AllPieces(ts: seq<string>) {
    forall i :: 0 <= i < |ts| ==> Piece(ts[i])
  }

  lemma {:induction false} TokensOfJoin(ts: seq<string>)
    requires AllPieces(ts)
    ensures '\0' !in Join(ts) && Tokens(Join(ts)) == ts
  {
    if ts != [] {
      OneToken(ts[0]);
      if |ts| > 1 {
        TokensOfJoin(ts[1..]);
        TokensAppend(ts[0], Join(ts[1..]));
      }
    }
  }

  /** Splitting joined pieces gives exactly the parameters that they stand for, in the same order. */
  lemma SplitOfPieces(ts: seq<string>, ps: seq<Param>)
    requires AllPieces(ts)
    ensures Split(Join(ts)) == ps <==> |ts| == |ps| && forall i :: 0 <= i < |ts| ==> Writes(ts[i], ps[i])
  {
    hide Tokens, Cut, Join, Writes;
    TokensOfJoin(ts);
    CStringWhole(Join(ts));
    if |ts| == |ps| {
      forall i | 0 <= i < |ts|
        ensures Cut(ts[i]) == ps[i] <==> Writes(ts[i], ps[i])
      {
        CutExactly(ts[i], ps[i]);
      }
    }
  }

  // ---------- round trips ----------

  function WriteOne(p: Param): string {
    p.key + "=" + p.value
  }

  function Write(ps: seq<Param>): (ts: seq<string>)
    ensures |ts| == |ps| && forall i :: 0 <= i < |ps| ==> ts[i] == WriteOne(ps[i])
  {
    seq(|ps|, i requires 0 <= i < |ps| => WriteOne(ps[i]))
  }

  /** What can be a parameter: no delimiter in it, and no '=' in its key. */
  predicate Clean(p: Param) {
    && '&' !in p.key && '=' !in p.key && '\0' !in p.key
    && '&' !in p.value && '\0' !in p.value
  }

  predicate AllClean(ps: seq<Param>) {
    forall i :: 0 <= i < |ps| ==> Clean(ps[i])
  }

  lemma {:induction false} TokensAreClean(s: string)
    requires '\0' !in s
    ensures forall i :: 0 <= i < |Tokens(s)| ==> '&' !in Tokens(s)[i] && '\0' !in Tokens(s)[i]
    decreases |s|
  {
    if s == "" {
    } else if s[0] == '&' {
      TokensAreClean(s[1..]);
    } else {
      TokensAreClean(s[Span(s, '&')..]);
    }
  }

  lemma SplitIsClean(query: string)
    ensures AllClean(Split(query))
  {
    TokensAreClean(CString(query));
  }

  lemma WrittenIsPiece(p: Param)
    requires Clean(p)
    ensures Piece(WriteOne(p)) && Writes(WriteOne(p), p)
  {
  }

  /** Splitting what was written and joined gives the same parameters, exactly if none contains a delimiter. */
  lemma SplitOfJoin(ps: seq<Param>)
    ensures Split(Join(Write(ps))) == ps <==> AllClean(ps)
  {
    hide Split, Join, WriteOne, Piece, Writes, Clean;
    if AllClean(ps) {
      forall i | 0 <= i < |ps|
        ensures Piece(Write(ps)[i]) && Writes(Write(ps)[i], ps[i])
      {
        WrittenIsPiece(ps[i]);
      }
      SplitOfPieces(Write(ps), ps);
    }
    SplitIsClean(Join(Write(ps)));
  }

  /** Writing and splitting again loses nothing that the first split has found, for any query. */
  lemma SplitJoinSplit(query: string)
    ensures Split(Join(Write(Split(query)))) == Split(query)
  {
    SplitIsClean(query);
    SplitOfJoin(Split(query));
  }
}
