/**
 * The Company and Keyword tables as the resume controller uses them
 * (backend/src/controllers/resumeController.js): rows with unique names,
 * filled by `findOrCreate` on the trimmed name.  A row's id is its position
 * in the table.
 */
module Tags {
  import opened Wrappers
  import opened Text

  /** A Company or Keyword row. */
  datatype Tag = Tag(id: nat, name: string)

  /** The names of a table after `findOrCreate({ where: { name } })`: as they
      were when the name is present, with the name appended otherwise. */
  function Intern(names: seq<string>, name: string): seq<string> {
    if name in names then names else names + [name]
  }

  /** The names after `findOrCreate` of each name of `xs`, in order. */
  function InternAll(names: seq<string>, xs: seq<string>): seq<string>
    decreases |xs|
  {
    if xs == [] then names
    else Intern(InternAll(names, xs[..|xs| - 1]), xs[|xs| - 1])
  }

  /** The position of a name in a table. */
  function IndexOf(names: seq<string>, name: string): (i: nat)
    requires name in names
    ensures i < |names| && names[i] == name
    ensures forall j :: 0 <= j < i ==> names[j] != name
  {
    if names[0] == name then 0 else 1 + IndexOf(names[1..], name)
  }

  /** Existing rows are never changed: the old table is a prefix of the new. */
  lemma {:induction false} InternAllExtends(names: seq<string>, xs: seq<string>)
    ensures names <= InternAll(names, xs)
    decreases |xs|
  {
    if xs != [] {
      InternAllExtends(names, xs[..|xs| - 1]);
    }
  }

  /** Afterwards the table holds the old names and every input name, and
      nothing else. */
  lemma {:induction false} InternAllContents(names: seq<string>, xs: seq<string>)
    ensures forall n :: n in InternAll(names, xs) <==> n in names || n in xs
    decreases |xs|
  {
    if xs != [] {
      var init := xs[..|xs| - 1];
      InternAllContents(names, init);
      assert xs == init + [xs[|xs| - 1]];
    }
  }

  /** Names stay unique: each name is in the table exactly once. */
  lemma {:induction false} InternAllDistinct(names: seq<string>, xs: seq<string>)
    requires NoDuplicates(names)
    ensures NoDuplicates(InternAll(names, xs))
    decreases |xs|
  {
    if xs != [] {
      var before := InternAll(names, xs[..|xs| - 1]);
      InternAllDistinct(names, xs[..|xs| - 1]);
      var n := xs[|xs| - 1];
      if n !in before {
        var after := before + [n];
        forall i, j | 0 <= i < j < |after|
          ensures after[i] != after[j]
        {
          if j == |before| {
            assert after[i] == before[i];
          }
        }
      }
    }
  }

  /** The tags a list of names resolved to, by name. */
  function TagNames(tags: seq<Tag>): (r: seq<string>)
    ensures |r| == |tags|
    ensures forall i :: 0 <= i < |tags| ==> r[i] == tags[i].name
  {
    if tags == [] then [] else TagNames(tags[..|tags| - 1]) + [tags[|tags| - 1].name]
  }

  /** The table after one more `findOrCreate`. */
  lemma InternAllSnoc(names: seq<string>, xs: seq<string>, x: string)
    ensures InternAll(names, xs + [x]) == Intern(InternAll(names, xs), x)
  {
    assert (xs + [x])[..|xs|] == xs;
  }

  /** The set of row ids of the tags; what `setCompanies` or `setKeywords`
      stores in the join table. */
  function TagIds(tags: seq<Tag>): (r: set<nat>)
    ensures forall id :: id in r <==> exists i :: 0 <= i < |tags| && tags[i].id == id
  {
    set i | 0 <= i < |tags| :: tags[i].id
  }

  /** Every tag is the row of the table at its id. */
  predicate RowsOf(tags: seq<Tag>, names: seq<string>) {
    forall j :: 0 <= j < |tags| ==> tags[j].id < |names| && names[tags[j].id] == tags[j].name
  }

  /** Rows found earlier stay where they are when the table grows. */
  lemma RowsStay(before: seq<string>, names: seq<string>, tags: seq<Tag>, tag: Tag)
    requires before <= names && RowsOf(tags, before)
    requires tag.id < |names| && names[tag.id] == tag.name
    ensures RowsOf(tags + [tag], names)
  {
    var all := tags + [tag];
    forall j | 0 <= j < |all|
      ensures all[j].id < |names| && names[all[j].id] == all[j].name
    {
      if j < |tags| {
        assert all[j] == tags[j];
        assert names[tags[j].id] == before[tags[j].id];
      }
    }
  }

  /** `ids` are the rows of the table whose names are in `list`: what the
      join table holds after `setCompanies` with the tags of `list`. */
  ghost predicate JoinFor(ids: set<nat>, names: seq<string>, list: seq<string>) {
    forall c: nat :: c in ids <==> c < |names| && names[c] in list
  }

  /** The ids of the tags found for a list are exactly the rows carrying
      the listed names, because names are unique. */
  lemma TagIdsJoin(tags: seq<Tag>, names: seq<string>, list: seq<string>)
    requires NoDuplicates(names) && RowsOf(tags, names)
    requires |tags| == |list|
    requires forall i :: 0 <= i < |tags| ==> tags[i].name == list[i]
    ensures JoinFor(TagIds(tags), names, list)
    ensures TagNames(tags) == list
  {
    forall c: nat | c < |names| && names[c] in list
      ensures c in TagIds(tags)
    {
      var i :| 0 <= i < |list| && list[i] == names[c];
      assert names[tags[i].id] == names[c];
    }
  }

  /** A table with unique names. */
  class TagTable {
    var names: seq<string>

    ghost predicate Valid()
      reads this
    {
      NoDuplicates(names)
    }

    constructor ()
      ensures names == [] && Valid()
    {
      names := [];
    }

    /** `findOrCreate({ where: { name } })`: the row with this name, created
        when there is none. */
    method FindOrCreate(key: string) returns (tag: Tag)
      requires Valid()
      modifies this
      ensures Valid()
      ensures tag.name == key
      ensures names == Intern(old(names), key)
      ensures tag.id < |names| && names[tag.id] == key
    {
      if key in names {
        tag := Tag(IndexOf(names, key), key);
      } else {
        tag := Tag(|names|, key);
        names := names + [key];
        assert NoDuplicates(names) by {
          forall i, j | 0 <= i < j < |names|
            ensures names[i] != names[j]
          {
            if j == |names| - 1 {
              assert names[i] == old(names)[i];
            }
          }
        }
      }
    }

    /** `findOrCreateCompanies` / `findOrCreateKeywords`: one tag per input
        name, in input order, each found or created under its trimmed name.
        `failAt` names the call that throws, if any; the rows made by the
        calls before it stay, because these calls run outside the request's
        transaction. */
    method FindOrCreateAll(list: seq<string>, failAt: Option<nat>) returns (ok: bool, tags: seq<Tag>)
      requires Valid()
      modifies this
      ensures Valid()
      ensures ok <==> failAt.None? || failAt.value >= |list|
      ensures list == [] ==> tags == [] && names == old(names)
      ensures ok ==> |tags| == |list|
      ensures !ok ==> |tags| == failAt.value < |list|
      ensures names == InternAll(old(names), TagNames(tags))
      ensures forall i :: 0 <= i < |tags| ==> tags[i].name == Trim(list[i])
      ensures RowsOf(tags, names)
    {
      if |list| == 0 {
        return true, [];
      }
      ok, tags := FindOrCreateEach(TrimAll(list), failAt);
    }

    /** The loop of `findOrCreateCompanies`, over the trimmed names. */
    method FindOrCreateEach(keys: seq<string>, failAt: Option<nat>) returns (ok: bool, tags: seq<Tag>)
      requires Valid()
      modifies this
      ensures Valid()
      ensures ok <==> failAt.None? || failAt.value >= |keys|
      ensures ok ==> |tags| == |keys|
      ensures !ok ==> |tags| == failAt.value < |keys|
      ensures names == InternAll(old(names), TagNames(tags))
      ensures forall i :: 0 <= i < |tags| ==> tags[i].name == keys[i]
      ensures RowsOf(tags, names)
    {
      var stop := if failAt.Some? && failAt.value < |keys| then failAt.value else |keys|;
      tags := [];
      var i := 0;
      while i < stop
        invariant 0 <= i <= stop
        invariant Valid()
        invariant names == InternAll(old(names), keys[..i])
        invariant |tags| == i
        invariant forall j :: 0 <= j < i ==> tags[j].name == keys[j]
        invariant RowsOf(tags, names)
      {
        ghost var before := names;
        var tag := FindOrCreate(keys[i]);
        InternAllSnoc(old(names), keys[..i], keys[i]);
        assert keys[..i + 1] == keys[..i] + [keys[i]];
        RowsStay(before, names, tags, tag);
        tags := tags + [tag];
        i := i + 1;
      }
      assert keys[..stop] == TagNames(tags);
      ok := stop == |keys|;
    }
  }
}
