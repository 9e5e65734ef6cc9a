/** `load_folders`: the listing of a real directory, with the contents
    folder listed without any filtering. */
module Folders {

  import opened PosixPath
  import opened Extensions
  import opened FileSystem
  import opened Server

  /** Where the listing puts one child of a directory. */
  datatype Slot = ToDirectories | ToFiles | Dropped

  /** The placement rule: real directories and names whose extension is
      exactly `zip` are shown as directories, the other archive extensions
      are hidden, and every remaining name is shown as a file, whatever its
      extension. */
  function Place(fs: Fs, dir: string, name: string): (s: Slot)
    ensures s == ToDirectories <==> IsDir(fs, Join(dir, name)) || GetExt(name) == "zip"
    ensures s == Dropped <==>
              !IsDir(fs, Join(dir, name)) && (GetExt(name) == "rar" || GetExt(name) == "cbz" || GetExt(name) == "cbr")
    ensures s == ToFiles <==> !IsDir(fs, Join(dir, name)) && GetExt(name) !in ArchiveExts
  {
    if IsDir(fs, Join(dir, name)) || GetExt(name) == "zip" then ToDirectories
    else if GetExt(name) !in ArchiveExts then ToFiles
    else Dropped
  }

  /** The slot of every child, in listing order. */
  function Tags(fs: Fs, dir: string, children: seq<string>): (t: seq<Slot>)
    ensures |t| == |children|
  {
    seq(|children|, i requires 0 <= i < |children| => Place(fs, dir, children[i]))
  }

  lemma TagsAt(fs: Fs, dir: string, children: seq<string>, i: nat)
    requires i < |children|
    ensures Tags(fs, dir, children)[i] == Place(fs, dir, children[i])
  {
  }

  lemma TagsAppend(fs: Fs, dir: string, a: seq<string>, b: seq<string>)
    ensures Tags(fs, dir, a + b) == Tags(fs, dir, a) + Tags(fs, dir, b)
  {
    var ta, tb := Tags(fs, dir, a), Tags(fs, dir, b);
    var l, r := Tags(fs, dir, a + b), ta + tb;
    assert |l| == |r|;
    forall i | 0 <= i < |l| ensures l[i] == r[i] {
      TagsAt(fs, dir, a + b, i);
      if i < |a| {
        assert (a + b)[i] == a[i];
        TagsAt(fs, dir, a, i);
        assert r[i] == ta[i];
      } else {
        assert (a + b)[i] == b[i - |a|];
        TagsAt(fs, dir, b, i - |a|);
        assert r[i] == tb[i - |a|];
      }
    }
  }

  /** The names whose tag is `slot`, in order. */
  function Pick(names: seq<string>, tags: seq<Slot>, slot: Slot): (r: seq<string>)
    requires |tags| == |names|
  {
    if names == [] then []
    else (if tags[0] == slot then [names[0]] else []) + Pick(names[1..], tags[1..], slot)
  }

  lemma {:induction false} PickMembers(names: seq<string>, tags: seq<Slot>, slot: Slot)
    requires |tags| == |names|
    ensures forall x :: x in Pick(names, tags, slot) <==>
              exists i :: 0 <= i < |names| && names[i] == x && tags[i] == slot
  {
    if names != [] {
      PickMembers(names[1..], tags[1..], slot);
      assert forall i :: 0 < i < |names| ==> names[i] == names[1..][i - 1] && tags[i] == tags[1..][i - 1];
    }
  }

  lemma {:induction false} PickAccounts(names: seq<string>, tags: seq<Slot>)
    requires |tags| == |names|
    ensures multiset(Pick(names, tags, ToDirectories)) + multiset(Pick(names, tags, ToFiles))
            + multiset(Pick(names, tags, Dropped)) == multiset(names)
  {
    if names != [] {
      var t, tt := names[1..], tags[1..];
      PickAccounts(t, tt);
      AccountStep(names, tags[0],
        Pick(t, tt, ToDirectories), Pick(t, tt, ToFiles), Pick(t, tt, Dropped),
        Pick(names, tags, ToDirectories), Pick(names, tags, ToFiles), Pick(names, tags, Dropped));
    }
  }

  /** One step of `PickAccounts`: the head goes to the part its tag names. */
  lemma AccountStep(n: seq<string>, s: Slot, d: seq<string>, f: seq<string>, x: seq<string>,
                    d': seq<string>, f': seq<string>, x': seq<string>)
    requires n != []
    requires multiset(d) + multiset(f) + multiset(x) == multiset(n[1..])
    requires d' == (if s == ToDirectories then [n[0]] else []) + d
    requires f' == (if s == ToFiles then [n[0]] else []) + f
    requires x' == (if s == Dropped then [n[0]] else []) + x
    ensures multiset(d') + multiset(f') + multiset(x') == multiset(n)
  {
    var h, t := n[0], n[1..];
    assert n == [h] + t;
    MultisetCons(h, t);
    AddOne(h, multiset(d), multiset(f), multiset(x), multiset(t));
    assert [] + d == d && [] + f == f && [] + x == x;
    match s
    case ToDirectories => MultisetCons(h, d);
    case ToFiles => MultisetCons(h, f);
    case Dropped => MultisetCons(h, x);
  }

  /** Adding one element to any of three parts adds it to their sum. */
  lemma AddOne(h: string, a: multiset<string>, b: multiset<string>, c: multiset<string>, m: multiset<string>)
    requires a + b + c == m
    ensures (multiset{h} + a) + b + c == multiset{h} + m
    ensures a + (multiset{h} + b) + c == multiset{h} + m
    ensures a + b + (multiset{h} + c) == multiset{h} + m
  {
  }

  lemma MultisetCons(h: string, t: seq<string>)
    ensures multiset([h] + t) == multiset{h} + multiset(t)
  {
  }

  lemma {:induction false} PickAppend(a: seq<string>, ta: seq<Slot>, b: seq<string>, tb: seq<Slot>, slot: Slot)
    requires |ta| == |a| && |tb| == |b|
    ensures Pick(a + b, ta + tb, slot) == Pick(a, ta, slot) + Pick(b, tb, slot)
  {
    if a == [] {
      assert a + b == b && ta + tb == tb;
    } else {
      assert (a + b)[0] == a[0] && (a + b)[1..] == a[1..] + b;
      assert (ta + tb)[0] == ta[0] && (ta + tb)[1..] == ta[1..] + tb;
      PickAppend(a[1..], ta[1..], b, tb, slot);
      var h := if ta[0] == slot then [a[0]] else [];
      assert h + Pick(a[1..], ta[1..], slot) + Pick(b, tb, slot)
          == h + (Pick(a[1..], ta[1..], slot) + Pick(b, tb, slot));
    }
  }

  /** The children that `Place` sends to `slot`, in listing order. */
  function Select(fs: Fs, dir: string, children: seq<string>, slot: Slot): (r: seq<string>) {
    Pick(children, Tags(fs, dir, children), slot)
  }

  /** A name is selected for a slot exactly when it is one of the children
      and `Place` sends it there. */
  lemma SelectMembers(fs: Fs, dir: string, children: seq<string>, slot: Slot)
    ensures forall x :: x in Select(fs, dir, children, slot) <==> x in children && Place(fs, dir, x) == slot
  {
    var tags := Tags(fs, dir, children);
    PickMembers(children, tags, slot);
    forall i | 0 <= i < |children|
      ensures tags[i] == Place(fs, dir, children[i])
    {
      TagsAt(fs, dir, children, i);
    }
  }

  /** Every child lands in exactly one slot: the three selections together
      are the children, counted with multiplicity. */
  lemma SelectAccounts(fs: Fs, dir: string, children: seq<string>)
    ensures multiset(Select(fs, dir, children, ToDirectories))
            + multiset(Select(fs, dir, children, ToFiles))
            + multiset(Select(fs, dir, children, Dropped))
            == multiset(children)
  {
    PickAccounts(children, Tags(fs, dir, children));
  }

  /** Selection keeps the listing order: selecting from a concatenation is
      selecting from each part and concatenating. */
  lemma SelectAppend(fs: Fs, dir: string, a: seq<string>, b: seq<string>, slot: Slot)
    ensures Select(fs, dir, a + b, slot) == Select(fs, dir, a, slot) + Select(fs, dir, b, slot)
  {
    TagsAppend(fs, dir, a, b);
    PickAppend(a, Tags(fs, dir, a), b, Tags(fs, dir, b), slot);
  }

  /** The loop over `os.listdir`: directories and files, each child in at
      most one of the two lists. */
  function Partition(fs: Fs, dir: string, children: seq<string>): (r: Comix)
    ensures forall x :: x in r.directories <==> x in children && Place(fs, dir, x) == ToDirectories
    ensures forall x :: x in r.files <==> x in children && Place(fs, dir, x) == ToFiles
    ensures multiset(r.directories) + multiset(r.files) <= multiset(children)
  {
    SelectMembers(fs, dir, children, ToDirectories);
    SelectMembers(fs, dir, children, ToFiles);
    SelectAccounts(fs, dir, children);
    Comix(Select(fs, dir, children, ToDirectories), Select(fs, dir, children, ToFiles))
  }

  /** The listing keeps the `os.listdir` order: partitioning a
      concatenation of children is partitioning each part and concatenating
      both lists. */
  lemma PartitionAppend(fs: Fs, dir: string, a: seq<string>, b: seq<string>)
    ensures Partition(fs, dir, a + b).directories
            == Partition(fs, dir, a).directories + Partition(fs, dir, b).directories
    ensures Partition(fs, dir, a + b).files == Partition(fs, dir, a).files + Partition(fs, dir, b).files
  {
    SelectAppend(fs, dir, a, b, ToDirectories);
    SelectAppend(fs, dir, a, b, ToFiles);
  }

  /** One child goes to the list `Place` names, or to neither when it is
      dropped; with `PartitionAppend` this fixes both lists, order included. */
  lemma PartitionSingle(fs: Fs, dir: string, x: string)
    ensures Partition(fs, dir, [x]).directories == if Place(fs, dir, x) == ToDirectories then [x] else []
    ensures Partition(fs, dir, [x]).files == if Place(fs, dir, x) == ToFiles then [x] else []
  {
    var t := Place(fs, dir, x);
    assert Tags(fs, dir, [x]) == [t] by {
      TagsAt(fs, dir, [x], 0);
    }
    PickSingle(x, t, ToDirectories);
    PickSingle(x, t, ToFiles);
  }

  lemma PickSingle(n: string, t: Slot, slot: Slot)
    ensures Pick([n], [t], slot) == if t == slot then [n] else []
  {
    assert [n][1..] == [] && [t][1..] == [];
  }

  /** The contents folder, `join(ROOT, CONTENTS)`. */
  function RootContents(cfg: Config): (r: string) {
    Join(cfg.root, cfg.contents)
  }

  /** `load_folders`: `/dir`. The contents folder lists every child as a
      directory; any other existing directory is partitioned; a missing
      path gives no content. `os.listdir` on a missing contents folder and
      the implicit `None` returned for an existing non-directory both end
      in a server error. */
  function LoadFolders(cfg: Config, fs: Fs, reqPath: string): (r: Response)
    ensures var p := GetRealPath(cfg.root, reqPath);
            p == RootContents(cfg) && IsDir(fs, p) ==> r == Listing(Comix(fs[p].children, []))
    ensures var p := GetRealPath(cfg.root, reqPath);
            p != RootContents(cfg) && p !in fs ==> r == NoContent
    ensures var p := GetRealPath(cfg.root, reqPath);
            p != RootContents(cfg) && IsDir(fs, p) ==>
              && r.Listing?
              && (forall x :: x in r.data.directories <==>
                    x in fs[p].children && (IsDir(fs, Join(p, x)) || GetExt(x) == "zip"))
              && (forall x :: x in r.data.files <==>
                    x in fs[p].children && !IsDir(fs, Join(p, x)) && GetExt(x) !in ArchiveExts)
              && multiset(r.data.directories) + multiset(r.data.files) <= multiset(fs[p].children)
    ensures var p := GetRealPath(cfg.root, reqPath);
            p != RootContents(cfg) && IsDir(fs, p) ==> r == Listing(Partition(fs, p, fs[p].children))
    ensures var p := GetRealPath(cfg.root, reqPath);
            r.Fault? <==> !IsDir(fs, p) && (p in fs || p == RootContents(cfg))
    ensures !r.SendFile? && !r.SendEntry?
  {
    var p := GetRealPath(cfg.root, reqPath);
    if p == RootContents(cfg) then
      if IsDir(fs, p) then Listing(Comix(fs[p].children, [])) else Fault
    else if p !in fs then NoContent
    else if IsDir(fs, p) then Listing(Partition(fs, p, fs[p].children))
    else Fault
  }

}
