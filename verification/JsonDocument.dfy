/**
 * A parsed document and its lookups (src/base/json.cpp): what operator[] and
 * iteration find in the node array is what the value they stand for holds.
 */
module JsonDocument {
  import opened Utf8
  import opened JsonGrammar
  import opened JsonParser
  import opened JsonWriter
  import JsonTexts

  lemma DocumentEnds(text: bytes)
    ensures ParseDocument(text).Done? ==> ParseDocument(text) == Done(ParseDocument(text).value, [])
  {
  }

  class Document {
    var buf: bytes
    var nodes: seq<Node>

    constructor ()
      ensures buf == [] && nodes == []
    {
      buf, nodes := [], [];
    }

    /** The document holds `v`, in preorder from node 0. */
    ghost predicate Holds(v: Value)
      reads this
    {
      Encodes(nodes, buf, |buf|, 0, v) && nodes[0].end == |nodes|
    }

    method Parse(text: bytes) returns (ok: bool)
      modifies this
      ensures ok <==> ParseDocument(text).Done?
      ensures ok ==> Holds(ParseDocument(text).value)
      ensures ok <==> exists v :: JsonTexts.Denotes(text, v)
      ensures forall v :: JsonTexts.Denotes(text, v) ==> ok && Holds(v)
      ensures !ok ==> nodes == []
    {
      hide JsonGrammar.ParseValue, SkipWs;
      WhatItDenotes(text);
      var q := new Parser(text);
      assert text[0..] == text;
      q.SkipSpace();
      ok := q.ParseValue(0, 0, 0);
      ghost var end := q.p;
      if ok {
        q.SkipSpace();
        if q.p != |q.buf| { ok := false; }
      }
      buf := q.buf;
      if ok {
        nodes := q.nodes;
        EncodesKeeps(q.nodes, q.buf, end, 0, JsonGrammar.ParseValue(SkipWs(text), 0).value, nodes, buf, |buf|);
      } else {
        nodes := [];
      }
    }

    lemma WhatItDenotes(text: bytes)
      ensures ParseDocument(text).Done? <==> exists v :: JsonTexts.Denotes(text, v)
      ensures forall v :: JsonTexts.Denotes(text, v) ==> ParseDocument(text) == Done(v, [])
    {
      hide ParseDocument, JsonTexts.Denotes;
      forall v ensures ParseDocument(text) == Done(v, []) <==> JsonTexts.Denotes(text, v) {
        JsonTexts.ParsesExactlyTheStandard(text, v);
      }
      DocumentEnds(text);
      if ParseDocument(text).Done? { assert JsonTexts.Denotes(text, ParseDocument(text).value); }
    }

    /** The first member with the key; none when no member has it. */
    method Find(i: nat, key: bytes, ghost kids: seq<Member>) returns (found: bool, c: nat, ghost k: nat)
      requires Encodes(nodes, buf, |buf|, i, Container(true, kids))
      ensures found ==>
                && k < |kids| && kids[k].key == key && (forall j :: 0 <= j < k ==> kids[j].key != key)
                && Encodes(nodes, buf, |buf|, c, kids[k].value)
      ensures !found ==> forall j :: 0 <= j < |kids| ==> kids[j].key != key
    {
      hide Encodes;
      InContainer(nodes, buf, |buf|, i, true, kids);
      var end := nodes[i].end;
      c, k := i + 1, 0;
      assert kids[0..] == kids;
      while c < end
        invariant k <= |kids| && c <= end <= |nodes|
        invariant EncodesKids(nodes, buf, |buf|, kids[k..], c, end)
        invariant forall j :: 0 <= j < k ==> kids[j].key != key
        decreases end - c
      {
        if nodes[c].keyLen == |key| && buf[nodes[c].keyOff..nodes[c].keyOff + nodes[c].keyLen] == key {
          return true, c, k;
        }
        assert kids[k..][1..] == kids[k + 1..];
        EncodesKidsOrdered(nodes, buf, |buf|, kids[k + 1..], nodes[c].end, end);
        c, k := nodes[c].end, k + 1;
      }
      EncodesKidsOrdered(nodes, buf, |buf|, kids[k..], c, end);
      found := false;
    }

    /** The element at an index; none past the end. */
    method At(i: nat, index: nat, ghost items: seq<Member>) returns (found: bool, c: nat)
      requires Encodes(nodes, buf, |buf|, i, Container(false, items))
      ensures found <==> index < |items|
      ensures found ==> Encodes(nodes, buf, |buf|, c, items[index].value)
    {
      hide Encodes;
      InContainer(nodes, buf, |buf|, i, false, items);
      c := i + 1;
      if index >= nodes[i].v.n { return false, c; }
      ghost var end := nodes[i].end;
      assert items[0..] == items;
      var k := 0;
      while k < index
        invariant 0 <= k <= index < |items|
        invariant EncodesKids(nodes, buf, |buf|, items[k..], c, end)
      {
        assert items[k..][1..] == items[k + 1..];
        c, k := nodes[c].end, k + 1;
      }
      found := true;
    }

    /** Iterating a container visits exactly its members, in order. */
    method Children(i: nat, ghost obj: bool, ghost kids: seq<Member>) returns (cs: seq<nat>)
      requires Encodes(nodes, buf, |buf|, i, Container(obj, kids))
      ensures |cs| == |kids|
      ensures forall k :: 0 <= k < |kids| ==>
                && Encodes(nodes, buf, |buf|, cs[k], kids[k].value)
                && SliceIs(buf, |buf|, nodes[cs[k]].keyOff, nodes[cs[k]].keyLen, kids[k].key)
    {
      hide Encodes, SliceIs;
      InContainer(nodes, buf, |buf|, i, obj, kids);
      var c, end := i + 1, nodes[i].end;
      cs := [];
      assert kids[0..] == kids;
      while c != end
        invariant |cs| <= |kids| && c <= end <= |nodes|
        invariant EncodesKids(nodes, buf, |buf|, kids[|cs|..], c, end)
        invariant forall k :: 0 <= k < |cs| ==>
                    && cs[k] < |nodes| && Encodes(nodes, buf, |buf|, cs[k], kids[k].value)
                    && SliceIs(buf, |buf|, nodes[cs[k]].keyOff, nodes[cs[k]].keyLen, kids[k].key)
        decreases end - c
      {
        ghost var k := |cs|;
        assert kids[k..][1..] == kids[k + 1..];
        EncodesKidsOrdered(nodes, buf, |buf|, kids[k + 1..], nodes[c].end, end);
        cs := cs + [c];
        c := nodes[c].end;
      }
      EncodesKidsOrdered(nodes, buf, |buf|, kids[|cs|..], c, end);
    }
  }

  lemma InContainer(nodes: seq<Node>, buf: bytes, lim: nat, i: nat, obj: bool, kids: seq<Member>)
    requires Encodes(nodes, buf, lim, i, Container(obj, kids))
    ensures i < |nodes| && nodes[i].end <= |nodes| && nodes[i].v == Count(|kids|) && i + 1 <= nodes[i].end
    ensures EncodesKids(nodes, buf, lim, kids, i + 1, nodes[i].end)
  {
  }

  lemma {:induction false} EncodesKidsOrdered(nodes: seq<Node>, buf: bytes, lim: nat, kids: seq<Member>, c: nat, end: nat)
    requires EncodesKids(nodes, buf, lim, kids, c, end)
    ensures c <= end && (kids == [] <==> c == end)
  {
  }

  /** Writing any value and parsing the text leaves a document that holds it, if it nests at most 256 deep. */
  method WriteThenParse(v: Value, pretty: bool) returns (d: Document, ok: bool)
    requires Writable(v)
    ensures ok <==> Height(v) <= 256
    ensures ok ==> d.Holds(v)
  {
    var text := WriteText(v, pretty);
    d := new Document();
    ok := d.Parse(text);
  }
}
