/** The registry writer at work: a growing buffer, its integer writes and one record
    (src/io/typetree_schema_registry.c). */
module RegistryFile {
  import opened Bytes
  import opened RegistryWords
  import opened RegistryKeys
  import opened SchemaRegistry
  import opened RegistryRecords
  import opened RegistryFormat

  const FIRST_BUFFER: nat := 256

  /** A growing output buffer that refuses to pass the file limit. */
  class SchemaWriter {
    var data: seq<byte>
    var capacity: nat
    var status: Status

    ghost predicate Valid()
      reads this
    {
      |data| <= capacity <= MAX_FILE
    }

    constructor ()
      ensures Valid() && data == [] && status == Ok
    {
      data, capacity, status := [], 0, Ok;
    }

    method Reserve(extra: nat) returns (ok: bool)
      requires Valid()
      modifies this`capacity, this`status
      ensures Valid() && ok == (|data| + extra <= MAX_FILE) && (ok ==> |data| + extra <= capacity)
      ensures status == if ok then old(status) else LimitExceeded
    {
      var required := |data| + extra;
      if required > MAX_FILE {
        status := LimitExceeded;
        return false;
      }
      if required > capacity {
        var next := if capacity == 0 then FIRST_BUFFER else capacity;
        while next < required
          invariant 0 < next && capacity <= next <= MAX_FILE
          decreases required - next
        {
          if next > MAX_FILE / 2 {
            next := MAX_FILE;
          } else {
            next := next * 2;
          }
        }
        capacity := next;
      }
      ok := true;
    }

    method Put(bytes: seq<byte>) returns (ok: bool)
      requires Valid()
      modifies this
      ensures Valid() && ok == (|old(data)| + |bytes| <= MAX_FILE)
      ensures data == if ok then old(data) + bytes else old(data)
      ensures status == if ok then old(status) else LimitExceeded
    {
      ok := Reserve(|bytes|);
      if ok {
        data := data + bytes;
      }
    }

    /** A chain of fixed-width writes that stops at the first failure. */
    method PutAll(widths: seq<nat>, words: seq<nat>) returns (ok: bool)
      requires Valid() && |widths| == |words|
      modifies this
      ensures Valid() && ok == (|old(data)| + |PutWords(widths, words)| <= MAX_FILE)
      ensures ok ==> data == old(data) + PutWords(widths, words)
      ensures status == if ok then old(status) else LimitExceeded
    {
      ghost var before := data;
      PutWordsFrom(widths, words, 0);
      assert before + [] == before;
      for i := 0 to |widths|
        invariant Valid() && status == old(status)
        invariant before + PutWords(widths, words) == data + PutWords(widths[i..], words[i..])
      {
        PutWordsFrom(widths, words, i);
        ghost var here, rest := data, PutWords(widths[i + 1..], words[i + 1..]);
        ok := Put(ToLittleEndian(words[i], widths[i]));
        Assoc(here, ToLittleEndian(words[i], widths[i]), rest);
        if !ok {
          return;
        }
      }
      assert widths[|widths|..] == [] && data + [] == data;
      ok := true;
    }

    // Each step below takes the rest of the text from `goal`, the buffer's contents once the record is complete.

    method Step(bytes: seq<byte>, ghost rest: seq<byte>, ghost goal: seq<byte>) returns (ok: bool)
      requires Valid() && goal == data + (bytes + rest)
      modifies this
      ensures Valid() && (ok ==> goal == data + rest) && (|goal| <= MAX_FILE ==> ok)
      ensures status == if ok then old(status) else LimitExceeded
    {
      Assoc(data, bytes, rest);
      ok := Put(bytes);
    }

    method StepWords(widths: seq<nat>, words: seq<nat>, ghost rest: seq<byte>, ghost goal: seq<byte>) returns (ok: bool)
      requires Valid() && |widths| == |words| && goal == data + (PutWords(widths, words) + rest)
      modifies this
      ensures Valid() && (ok ==> goal == data + rest) && (|goal| <= MAX_FILE ==> ok)
      ensures status == if ok then old(status) else LimitExceeded
    {
      Assoc(data, PutWords(widths, words), rest);
      ok := PutAll(widths, words);
    }

    method StepNodes(nodes: seq<Node>, ghost rest: seq<byte>, ghost goal: seq<byte>) returns (ok: bool)
      requires Valid() && goal == data + NodesText(nodes, rest)
      modifies this
      ensures Valid() && (ok ==> goal == data + rest) && (|goal| <= MAX_FILE ==> ok)
      ensures status == if ok then old(status) else LimitExceeded
    {
      assert nodes[0..] == nodes;
      for i := 0 to |nodes|
        invariant Valid() && status == old(status) && goal == data + NodesText(nodes[i..], rest)
      {
        assert nodes[i..][1..] == nodes[i + 1..];
        ok := StepWords(NODE, NodeWords(nodes[i]), NodesText(nodes[i + 1..], rest), goal);
        if !ok {
          return;
        }
      }
      ok := true;
    }

    method StepDependencies(dependencies: seq<i32>, ghost rest: seq<byte>, ghost goal: seq<byte>) returns (ok: bool)
      requires Valid() && goal == data + DependenciesText(dependencies, rest)
      modifies this
      ensures Valid() && (ok ==> goal == data + rest) && (|goal| <= MAX_FILE ==> ok)
      ensures status == if ok then old(status) else LimitExceeded
    {
      assert dependencies[0..] == dependencies;
      for i := 0 to |dependencies|
        invariant Valid() && status == old(status) && goal == data + DependenciesText(dependencies[i..], rest)
      {
        assert dependencies[i..][1..] == dependencies[i + 1..];
        ok := StepWords(DEPENDENCY, [Unsigned32(dependencies[i])], DependenciesText(dependencies[i + 1..], rest), goal);
        if !ok {
          return;
        }
      }
      ok := true;
    }

    method StepFixed(key: Key, counts: seq<nat>, ghost body: seq<byte>, ghost goal: seq<byte>) returns (ok: bool)
      requires Valid() && |counts| == 7 && goal == data + FixedText(key, counts, body)
      modifies this
      ensures Valid() && (ok ==> goal == data + body) && (|goal| <= MAX_FILE ==> ok)
      ensures status == if ok then old(status) else LimitExceeded
    {
      ghost var tail := PutWords(COUNTS, counts) + body;
      ghost var numbers := NumbersText(key, counts, body);
      ok := StepWords(IDENTITY, [key.fileVersion, |key.unity|], key.unity + numbers, goal);
      if ok {
        ok := Step(key.unity, numbers, goal);
      }
      if ok {
        ok := StepWords(NUMBERS, NumberWords(key), key.scriptHash + (key.typeHash + tail), goal);
      }
      if ok {
        ok := Step(key.scriptHash, key.typeHash + tail, goal);
      }
      if ok {
        ok := Step(key.typeHash, tail, goal);
      }
      if ok {
        ok := StepWords(COUNTS, counts, body, goal);
      }
    }

    method StepBody(schema: Schema, ghost goal: seq<byte>) returns (ok: bool)
      requires Valid() && goal == data + BodyText(schema)
      modifies this
      ensures Valid() && (ok ==> goal == data) && (|goal| <= MAX_FILE ==> ok)
      ensures status == if ok then old(status) else LimitExceeded
    {
      var c, n, a := NameText(schema.className), NameText(schema.nameSpace), NameText(schema.assembly);
      ghost var dependencies := DependenciesText(schema.dependencies, c + (n + a));
      ok := StepNodes(schema.nodes, schema.strings + dependencies, goal);
      if ok {
        ok := Step(schema.strings, dependencies, goal);
      }
      if ok {
        ok := StepDependencies(schema.dependencies, c + (n + a), goal);
      }
      if ok {
        ok := Step(c, n + a, goal);
      }
      if ok {
        ok := Step(n, a, goal);
      }
      if ok {
        assert a + [] == a;
        ok := Step(a, [], goal);
      }
      if ok {
        assert data + [] == data;
      }
    }

    /** `write_schema_record`: a zero placeholder, the payload, then the size patched into the placeholder. */
    method WriteRecord(e: Entry) returns (ok: bool)
      requires Valid()
      modifies this
      ensures Valid() && ok == (|old(data)| + |Frame(Payload(e))| <= MAX_FILE)
      ensures ok ==> data == old(data) + Frame(Payload(e))
      ensures status == if ok then old(status) else LimitExceeded
    {
      ghost var before := data;
      var start := |data|;
      OneWord(0);
      OneWord(8 + |Payload(e)|);
      ok := PutAll(RECORD, [0]);
      if !ok {
        return;
      }
      ghost var goal := data + Payload(e);
      ok := StepFixed(e.key, CountWords(e.schema), BodyText(e.schema), goal);
      if ok {
        ok := StepBody(e.schema, goal);
      }
      if ok {
        Patched(before, PutWords(RECORD, [0]), PutWords(RECORD, [8 + |Payload(e)|]), Payload(e));
        data := data[..start] + ToLittleEndian(|data| - start, 8) + data[start + 8..];
      }
    }
  }

  lemma OneWord(x: nat)
    ensures PutWords(RECORD, [x]) == ToLittleEndian(x, 8)
  {
    assert ToLittleEndian(x, 8) + [] == ToLittleEndian(x, 8);
  }

  lemma Patched(before: seq<byte>, placeholder: seq<byte>, size: seq<byte>, payload: seq<byte>)
    requires |placeholder| == |size| == 8
    ensures var data := before + placeholder + payload;
            && |data| == |before| + 8 + |payload| && data[..|before|] == before && data[|before| + 8..] == payload
    ensures before + size + payload == before + (size + payload)
  {
  }

  lemma PutWordsFrom(widths: seq<nat>, words: seq<nat>, i: nat)
    requires |widths| == |words| && i <= |widths|
    ensures widths[0..] == widths && words[0..] == words
    ensures i < |widths| ==> PutWords(widths[i..], words[i..])
                               == ToLittleEndian(words[i], widths[i]) + PutWords(widths[i + 1..], words[i + 1..])
  {
    if i < |widths| {
      assert widths[i..][1..] == widths[i + 1..] && words[i..][1..] == words[i + 1..];
    }
  }
}
