/**
 * The log folder as the writers see it through the operating system: names
 * linked to inodes, so that an open handle keeps referring to the same file
 * when that file is renamed. Every call takes a flag saying whether the
 * operating system makes it fail; the model says what happens either way.
 */
module Disk {
  import opened Common
  import opened Civil

  newtype Byte = b: int | 0 <= b < 256

  type Ino = nat

  /** A file or directory: its bytes and its modification time. */
  datatype Node = Node(isDir: bool, data: seq<Byte>, modTime: Instant)

  /** The entries of one folder: names linked to inodes, and the inodes. */
  datatype Folder = Folder(links: map<string, Ino>, nodes: map<Ino, Node>, nextIno: Ino)

  datatype IoError = NotExist | IsDirectory | Failed

  datatype Result<T> = Ok(value: T) | Err(error: IoError)

  /** Every name refers to an inode, and fresh inode numbers are unused. */
  predicate Wf(f: Folder)
  {
    (forall name | name in f.links :: f.links[name] in f.nodes)
    && (forall i | i in f.nodes :: i < f.nextIno)
  }

  predicate IsDirAt(f: Folder, name: string)
  {
    name in f.links && f.links[name] in f.nodes && f.nodes[f.links[name]].isDir
  }

  /** os.Stat */
  function Stat(f: Folder, name: string, fails: bool): (r: Result<Node>)
    ensures r.Ok? ==> name in f.links && f.links[name] in f.nodes && r.value == f.nodes[f.links[name]]
    ensures r == Err(NotExist) <==> name !in f.links
  {
    if name !in f.links then Err(NotExist)
    else if fails || f.links[name] !in f.nodes then Err(Failed)
    else Ok(f.nodes[f.links[name]])
  }

  /** os.Rename within the folder: the target name is replaced unless it is a directory. */
  function Rename(f: Folder, from: string, to: string, fails: bool): (r: (Folder, Option<IoError>))
    ensures r.0.nodes == f.nodes && r.0.nextIno == f.nextIno
    ensures Wf(f) ==> Wf(r.0)
    ensures r.1.Some? ==> r.0 == f
    ensures r.1.None? <==> !fails && from in f.links && (from == to || !IsDirAt(f, to))
  {
    if fails then (f, Some(Failed))
    else if from !in f.links then (f, Some(NotExist))
    else if from == to then (f, None)
    else if IsDirAt(f, to) then (f, Some(IsDirectory))
    else (f.(links := (f.links - {from})[to := f.links[from]]), None)
  }

  /** os.Remove */
  function Remove(f: Folder, name: string, fails: bool): (r: (Folder, Option<IoError>))
    ensures r.0.nodes == f.nodes && r.0.nextIno == f.nextIno
    ensures Wf(f) ==> Wf(r.0)
    ensures r.1.None? ==> r.0.links == f.links - {name}
    ensures r.1.Some? ==> r.0 == f
  {
    if fails then (f, Some(Failed))
    else if name !in f.links then (f, Some(NotExist))
    else (f.(links := f.links - {name}), None)
  }

  /** os.OpenFile(name, O_CREATE|O_APPEND|write): the inode of the file, created empty when missing. */
  function OpenAppend(f: Folder, name: string, now: Instant, fails: bool): (r: (Folder, Result<Ino>))
    requires Wf(f)
    ensures Wf(r.0)
    ensures r.1.Ok? ==> name in r.0.links && r.0.links[name] == r.1.value && !r.0.nodes[r.1.value].isDir
    ensures r.1.Err? ==> r.0 == f
    ensures forall i | i in f.nodes :: i in r.0.nodes && r.0.nodes[i] == f.nodes[i]
    ensures forall n | n != name :: n in r.0.links <==> n in f.links
  {
    if fails then (f, Err(Failed))
    else if name in f.links then
      if f.nodes[f.links[name]].isDir then (f, Err(IsDirectory)) else (f, Ok(f.links[name]))
    else
      var ino := f.nextIno;
      (Folder(f.links[name := ino], f.nodes[ino := Node(false, [], now)], ino + 1), Ok(ino))
  }

  /** (*os.File).Write on the handle of inode `ino`: appends the bytes and stamps the time. */
  function Append(f: Folder, ino: Ino, p: seq<Byte>, now: Instant, fails: bool): (r: (Folder, Option<IoError>))
    ensures r.0.links == f.links && r.0.nextIno == f.nextIno && r.0.nodes.Keys == f.nodes.Keys
    ensures Wf(f) ==> Wf(r.0)
    ensures r.1.Some? ==> r.0 == f
    ensures r.1.None? ==> ino in f.nodes && r.0.nodes[ino].data == f.nodes[ino].data + p
    ensures forall i | i in f.nodes :: r.0.nodes[i].isDir == f.nodes[i].isDir
    ensures forall i | i in f.nodes && i != ino :: r.0.nodes[i] == f.nodes[i]
    ensures r.1.None? <==> !fails && ino in f.nodes
  {
    if fails || ino !in f.nodes then (f, Some(Failed))
    else (f.(nodes := f.nodes[ino := f.nodes[ino].(data := f.nodes[ino].data + p, modTime := now)]), None)
  }

  /** The operating system's file system, as seen from the log folder. */
  class FileSystem {
    var folder: Folder

    constructor(initial: Folder)
      ensures folder == initial
    {
      folder := initial;
    }
  }
}
