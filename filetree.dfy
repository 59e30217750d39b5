/**
 * The crawlers' storage directory as a finite tree: a map from a path
 * (the list of names below the storage root) to a node that is either a
 * directory or a file holding a sequence of elements. The root itself is
 * always a directory and is not an entry of the map. The operations follow
 * os.listdir, os.path.isdir, os.path.exists, os.makedirs and open() in the
 * modes 'w'/'wb' and 'a', each failing with OSError where Python does.
 */
module FileTree {
  import opened Base

  type Path = seq<string>

  datatype Node<E> = Dir | File(content: seq<E>)

  type Tree<E> = map<Path, Node<E>>

  function Parent(p: Path): Path
    requires |p| > 0
  {
    p[..|p| - 1]
  }

  /** os.path.isdir: the root and every directory entry. */
  predicate IsDir<E>(t: Tree<E>, p: Path)
  {
    p == [] || (p in t && t[p].Dir?)
  }

  predicate IsFile<E>(t: Tree<E>, p: Path)
  {
    p in t && t[p].File?
  }

  /** os.path.exists */
  predicate Exists<E>(t: Tree<E>, p: Path)
  {
    p == [] || p in t
  }

  /** Every entry hangs below an existing directory. */
  predicate WellFormed<E>(t: Tree<E>)
  {
    forall p {:trigger p in t, Parent(p)} :: p in t ==> |p| > 0 && IsDir(t, Parent(p))
  }

  /** os.listdir(p): the names of the entries directly below p. */
  function ListDir<E>(t: Tree<E>, p: Path): (names: set<string>)
    ensures forall n :: n in names <==> p + [n] in t
  {
    var names := set q | q in t && |q| == |p| + 1 && q[..|p|] == p :: q[|p|];
    assert forall n :: p + [n] in t ==> (p + [n])[..|p|] == p && (p + [n])[|p|] == n;
    assert forall q :: q in t && |q| == |p| + 1 && q[..|p|] == p ==> q == p + [q[|p|]];
    names
  }

  /** The contents of the file at p, if p is a file. */
  function Read<E>(t: Tree<E>, p: Path): Option<seq<E>>
  {
    if IsFile(t, p) then Some(t[p].content) else None
  }

  /** Nothing at paths other than p changed between t and u. */
  ghost predicate SameExcept<E>(t: Tree<E>, u: Tree<E>, p: Path)
  {
    forall q :: q != p ==> (q in t <==> q in u) && (q in t ==> t[q] == u[q])
  }

  /** A change confined to p leaves what is read elsewhere alone. */
  lemma ReadElsewhere<E>(t: Tree<E>, u: Tree<E>, p: Path, q: Path)
    requires SameExcept(t, u, p) && q != p
    ensures Read(u, q) == Read(t, q)
  {
    assert q in t <==> q in u;
  }

  /** u keeps every entry of t, and what it adds are directories on the way to p. */
  ghost predicate GrowsToward<E>(t: Tree<E>, u: Tree<E>, p: Path)
  {
    && (forall q :: q in t ==> q in u && u[q] == t[q])
    && (forall q :: q in u && q !in t ==> u[q] == Dir && 0 < |q| <= |p| && q == p[..|q|])
  }

  /** No proper prefix of p, nor p itself, is a file. */
  predicate NoFileOn<E>(t: Tree<E>, p: Path)
  {
    forall k :: 1 <= k <= |p| ==> !IsFile(t, p[..k])
  }

  /** os.makedirs(p, exist_ok=existOk): create every missing directory down to p. */
  function MakeDirs<E>(t: Tree<E>, p: Path, existOk: bool): Result<Tree<E>>
    decreases |p|
  {
    if p == [] then (if existOk then Ok(t) else Err(OSError))
    else
      var head := Parent(p);
      var r1 := if Exists(t, head) then Ok(t) else MakeDirs(t, head, existOk);
      match r1
      case Err(e) => Err(e)
      case Ok(t1) =>
        if p in t1 then (if existOk && t1[p].Dir? then Ok(t1) else Err(OSError))
        else if IsDir(t1, head) then Ok(t1[p := Dir]) else Err(OSError)
  }

  /**
   * makedirs fails exactly when a file stands on the way to p, or when p
   * already exists and exist_ok is not set; otherwise p is a directory
   * afterwards and only directories on the way to p were added.
   */
  lemma {:induction false} MakeDirsSpec<E>(t: Tree<E>, p: Path, existOk: bool)
    requires WellFormed(t)
    ensures MakeDirsMeets(t, p, existOk)
    decreases |p|
  {
    if p != [] {
      if Exists(t, Parent(p)) {
        MakeDirsBelowExisting(t, p, existOk);
      } else {
        MakeDirsSpec(t, Parent(p), existOk);
        MakeDirsBelowMissing(t, p, existOk);
      }
    }
  }

  ghost predicate MakeDirsMeets<E>(t: Tree<E>, p: Path, existOk: bool)
    requires WellFormed(t)
  {
    var r := MakeDirs(t, p, existOk);
    && (r.Ok? <==> NoFileOn(t, p) && (existOk || (p != [] && p !in t)))
    && (r.Ok? ==> WellFormed(r.value) && IsDir(r.value, p) && GrowsToward(t, r.value, p))
  }

  lemma MakeDirsBelowExisting<E>(t: Tree<E>, p: Path, existOk: bool)
    requires WellFormed(t) && p != [] && Exists(t, Parent(p))
    ensures MakeDirsMeets(t, p, existOk)
  {
    var head := Parent(p);
    NoFileOnPrefix(t, p);
    if IsDir(t, head) {
      DirHasNoFileOn(t, head);
      PutKeepsWellFormed(t, p, Dir);
    } else {
      assert head[..|head|] == head;
    }
  }

  lemma MakeDirsBelowMissing<E>(t: Tree<E>, p: Path, existOk: bool)
    requires WellFormed(t) && p != [] && !Exists(t, Parent(p))
    requires MakeDirsMeets(t, Parent(p), existOk)
    ensures MakeDirsMeets(t, p, existOk)
  {
    var head := Parent(p);
    NoFileOnPrefix(t, p);
    var r1 := MakeDirs(t, head, existOk);
    if r1.Ok? {
      var t1 := r1.value;
      GrowsOneMore(t, t1, p);
      PutKeepsWellFormed(t1, p, Dir);
    }
  }

  lemma GrowsOneMore<E>(t: Tree<E>, t1: Tree<E>, p: Path)
    requires p != [] && p !in t && GrowsToward(t, t1, Parent(p))
    ensures p !in t1 && GrowsToward(t, t1[p := Dir], p)
  {
    var head := Parent(p);
    forall q | q in t1 && q !in t ensures q == p[..|q|] {
      assert q == head[..|q|];
    }
  }

  /** Putting a node below an existing directory keeps the tree well formed, unless a file replaces a directory. */
  lemma PutKeepsWellFormed<E>(t: Tree<E>, p: Path, n: Node<E>)
    requires WellFormed(t) && p != [] && IsDir(t, Parent(p)) && (n.File? ==> !IsDir(t, p))
    ensures WellFormed(t[p := n]) && (n.Dir? ==> IsDir(t[p := n], p))
  {
    forall q | q in t[p := n] ensures |q| > 0 && IsDir(t[p := n], Parent(q)) {
      if q != p {
        assert q in t && |q| > 0 && IsDir(t, Parent(q));
      }
    }
  }

  /** Below the root, a directory has only directories above it. */
  lemma {:induction false} DirHasNoFileOn<E>(t: Tree<E>, q: Path)
    requires WellFormed(t) && IsDir(t, q)
    ensures NoFileOn(t, q)
    decreases |q|
  {
    if q != [] {
      DirHasNoFileOn(t, Parent(q));
      NoFileOnPrefix(t, q);
    }
  }

  /** NoFileOn splits into the parent and the last step. */
  lemma NoFileOnPrefix<E>(t: Tree<E>, p: Path)
    requires WellFormed(t) && |p| > 0
    ensures NoFileOn(t, p) <==> NoFileOn(t, Parent(p)) && !IsFile(t, p)
    ensures !Exists(t, Parent(p)) ==> p !in t
  {
    var head := Parent(p);
    assert p[..|p|] == p;
    forall k | 1 <= k <= |head| ensures head[..k] == p[..k] { }
  }

  /** os.path.exists(p) or else os.makedirs(p): what save_data does for each level. */
  function EnsureDir<E>(t: Tree<E>, p: Path): Result<Tree<E>>
  {
    if Exists(t, p) then Ok(t) else MakeDirs(t, p, false)
  }

  /** The check and makedirs fail exactly when a file stands on the way to p; only directories toward p are added. */
  lemma EnsureDirMeets<E>(t: Tree<E>, p: Path)
    requires WellFormed(t)
    ensures var r := EnsureDir(t, p);
      && (r.Ok? <==> Exists(t, p) || NoFileOn(t, p))
      && (r.Ok? ==> WellFormed(r.value) && GrowsToward(t, r.value, p))
  {
    MakeDirsSpec(t, p, false);
    if Exists(t, p) { GrowsTowardRefl(t, p); }
  }

  lemma GrowsTowardRefl<E>(t: Tree<E>, p: Path)
    ensures GrowsToward(t, t, p)
  {
  }

  /** The failure condition shared by open() in 'w' and 'a' modes. */
  predicate CanOpen<E>(t: Tree<E>, p: Path)
  {
    p != [] && IsDir(t, Parent(p)) && !IsDir(t, p)
  }

  /** open(p, 'w').write(data): create or truncate, then write. */
  function WriteFile<E>(t: Tree<E>, p: Path, data: seq<E>): Result<Tree<E>>
  {
    if CanOpen(t, p) then Ok(t[p := File(data)])
    else Err(OSError)
  }

  /** open(p, 'a').write(data): create if absent, keep what is there, add data at the end. */
  function AppendFile<E>(t: Tree<E>, p: Path, data: seq<E>): Result<Tree<E>>
  {
    if CanOpen(t, p) then Ok(t[p := File(if IsFile(t, p) then t[p].content + data else data)])
    else Err(OSError)
  }

  /** open(p, 'w') fails exactly when p cannot be opened; the file then holds data and nothing else changed. */
  lemma WriteFileMeets<E>(t: Tree<E>, p: Path, data: seq<E>)
    requires WellFormed(t)
    ensures var r := WriteFile(t, p, data);
      && (r.Ok? <==> CanOpen(t, p))
      && (r.Ok? ==> WellFormed(r.value) && Read(r.value, p) == Some(data) && SameExcept(t, r.value, p))
  {
    if CanOpen(t, p) { PutKeepsWellFormed(t, p, File(data)); }
  }

  /** open(p, 'a') fails exactly when p cannot be opened; data then follows what the file held, and nothing else changed. */
  lemma AppendFileMeets<E>(t: Tree<E>, p: Path, data: seq<E>)
    requires WellFormed(t)
    ensures var r := AppendFile(t, p, data);
      && (r.Ok? <==> CanOpen(t, p))
      && (r.Ok? ==> WellFormed(r.value) && SameExcept(t, r.value, p))
      && (r.Ok? ==> Read(r.value, p) == Some(if IsFile(t, p) then t[p].content + data else data))
  {
    if CanOpen(t, p) { PutKeepsWellFormed(t, p, File(if IsFile(t, p) then t[p].content + data else data)); }
  }
}
