/**
 * The part of System.IO the vault uses, as a store from paths to file contents. Every write
 * and delete is also appended to a ghost log, so that the order of a run's effects can be stated.
 */
module FileSystem {
  import opened Bytes
  import Utf8
  import Text

  datatype Op = Write(path: string, data: seq<byte>) | Delete(path: string)

  function Step(files: map<string, seq<byte>>, op: Op): map<string, seq<byte>> {
    match op
    case Write(p, d) => files[p := d]
    case Delete(p) => files - {p}
  }

  /** The store after the operations, applied in order. */
  function Apply(files: map<string, seq<byte>>, ops: seq<Op>): map<string, seq<byte>>
    decreases |ops|
  {
    if ops == [] then files else Apply(Step(files, ops[0]), ops[1..])
  }

  lemma {:induction false} ApplyConcat(files: map<string, seq<byte>>, a: seq<Op>, b: seq<Op>)
    ensures Apply(files, a + b) == Apply(Apply(files, a), b)
    decreases |a|
  {
    if a == [] {
      assert a + b == b;
    } else {
      assert (a + b)[1..] == a[1..] + b;
      ApplyConcat(Step(files, a[0]), a[1..], b);
    }
  }

  lemma ApplyOne(files: map<string, seq<byte>>, a: Op)
    ensures Apply(files, [a]) == Step(files, a)
  {
    assert [a][1..] == [];
  }

  lemma ApplyTwo(files: map<string, seq<byte>>, a: Op, b: Op)
    ensures Apply(files, [a, b]) == Step(Step(files, a), b)
  {
    assert [a, b] == [a] + [b];
    ApplyConcat(files, [a], [b]);
    ApplyOne(files, a);
    ApplyOne(Step(files, a), b);
  }

  class Disk {
    var files: map<string, seq<byte>>
    ghost var log: seq<Op>

    constructor (initial: map<string, seq<byte>>)
      ensures files == initial && log == []
    {
      files := initial;
      log := [];
    }

    /** File.Exists. */
    predicate Exists(path: string)
      reads this
    {
      path in files
    }

    /** File.ReadAllBytes. */
    method ReadAllBytes(path: string) returns (data: array<byte>)
      requires path in files
      ensures fresh(data) && data[..] == files[path]
    {
      var content := files[path];
      data := new byte[|content|](i requires 0 <= i < |content| => content[i]);
    }

    /**
     * FileStream.Read(buffer, 0, count) on a stream just opened: copies the first
     * min(count, length) bytes of the file into the buffer and returns how many.
     */
    method Read(path: string, buffer: array<byte>, count: nat) returns (n: nat)
      requires path in files && count <= buffer.Length
      modifies buffer
      ensures n == Min(count, |files[path]|)
      ensures buffer[..n] == files[path][..n]
      ensures buffer[n..] == old(buffer[n..])
    {
      var content := files[path];
      n := Min(count, |content|);
      var i := 0;
      while i < n
        invariant 0 <= i <= n
        invariant forall j :: 0 <= j < i ==> buffer[j] == content[j]
        invariant forall j :: i <= j < buffer.Length ==> buffer[j] == old(buffer[j])
      {
        buffer[i] := content[i];
        i := i + 1;
      }
    }

    /** File.WriteAllBytes: creates or overwrites. */
    method WriteAllBytes(path: string, data: seq<byte>)
      modifies this
      ensures files == old(files)[path := data]
      ensures log == old(log) + [Write(path, data)]
    {
      files := files[path := data];
      log := log + [Write(path, data)];
    }

    /** File.WriteAllText: the text in UTF-8, without a byte-order mark. */
    method WriteAllText(path: string, text: string)
      modifies this
      ensures files == old(files)[path := Utf8.Encode(text)]
      ensures log == old(log) + [Write(path, Utf8.Encode(text))]
    {
      WriteAllBytes(path, Utf8.Encode(text));
    }

    /** File.ReadAllText. */
    method ReadAllText(path: string) returns (text: string)
      requires path in files
      ensures text == Utf8.Decode(files[path])
    {
      text := Utf8.Decode(files[path]);
    }

    /** File.ReadAllLines. */
    method ReadAllLines(path: string) returns (lines: seq<string>)
      requires path in files
      ensures lines == Text.Lines(Utf8.Decode(files[path]))
    {
      var text := ReadAllText(path);
      lines := Text.Lines(text);
    }

    /** File.Delete: removing a file that is not there is not an error. */
    method Delete(path: string)
      modifies this
      ensures files == old(files) - {path}
      ensures log == old(log) + [Op.Delete(path)]
    {
      files := files - {path};
      log := log + [Op.Delete(path)];
    }
  }
}
