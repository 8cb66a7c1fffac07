/** Single filesystem steps on one directory tree, and what a crash can leave behind. */
module FileSteps {

  datatype Step<K, V> =
    | Write(path: K, content: V)
    | Rename(from: K, to: K)
    | Remove(path: K)

  function Apply<K, V>(files: map<K, V>, step: Step<K, V>): map<K, V> {
    match step
    case Write(p, c) => files[p := c]
    case Rename(from, to) => if from in files then (files - {from})[to := files[from]] else files
    case Remove(p) => files - {p}
  }

  function Run<K, V>(files: map<K, V>, steps: seq<Step<K, V>>): map<K, V>
    decreases |steps|
  {
    if steps == [] then files else Run(Apply(files, steps[0]), steps[1..])
  }

  // Only renames and removals are atomic: a crash inside a write leaves any content at its path.
  function Torn<K, V>(files: map<K, V>, step: Step<K, V>, junk: V): map<K, V> {
    if step.Write? then files[step.path := junk] else files
  }

  // What a crash leaves when `k` steps are done, the next one possibly torn.
  function Crashed<K, V>(files: map<K, V>, steps: seq<Step<K, V>>, k: nat, torn: bool, junk: V): map<K, V>
    requires k <= |steps|
  {
    var done := Run(files, steps[..k]);
    if torn && k < |steps| then Torn(done, steps[k], junk) else done
  }

  lemma {:induction false} RunConcat<K, V>(files: map<K, V>, a: seq<Step<K, V>>, b: seq<Step<K, V>>)
    ensures Run(files, a + b) == Run(Run(files, a), b)
    decreases |a|
  {
    if a == [] {
      assert a + b == b;
    } else {
      assert (a + b)[0] == a[0] && (a + b)[1..] == a[1..] + b;
      RunConcat(Apply(files, a[0]), a[1..], b);
    }
  }

  lemma RunOne<K, V>(files: map<K, V>, a: Step<K, V>)
    ensures Run(files, [a]) == Apply(files, a)
  {
    assert [a][1..] == [];
  }

  lemma RunTwo<K, V>(files: map<K, V>, a: Step<K, V>, b: Step<K, V>)
    ensures Run(files, [a, b]) == Apply(Apply(files, a), b)
  {
    assert [a, b][1..] == [b] && [b][1..] == [];
    assert Run(Apply(files, a), [b]) == Apply(Apply(files, a), b);
  }

  // A crash in the second part of a sequence is a crash of that part alone.
  lemma CrashedConcat<K, V>(files: map<K, V>, a: seq<Step<K, V>>, b: seq<Step<K, V>>, k: nat, torn: bool, junk: V)
    requires k <= |b|
    ensures Crashed(files, a + b, |a| + k, torn, junk) == Crashed(Run(files, a), b, k, torn, junk)
  {
    assert (a + b)[..|a| + k] == a + b[..k];
    RunConcat(files, a, b[..k]);
  }

  // Two steps, a write and a rename: the crash points before both are done.
  lemma CrashedTwo<K, V>(files: map<K, V>, a: Step<K, V>, b: Step<K, V>, rest: seq<Step<K, V>>, k: nat,
                          torn: bool, junk: V)
    requires k < 2 && !b.Write?
    ensures Crashed(files, [a, b] + rest, k, torn, junk)
            == if k == 1 then Apply(files, a) else if torn then Torn(files, a, junk) else files
  {
    var steps := [a, b] + rest;
    assert steps[..0] == [] && steps[..1] == [a];
    RunOne(files, a);
  }
}
