/** The virtual-host table of vhosts.c: a crit-bit map from host name to
    webroot plus a default webroot, kept up to date from directory events.
    Webroots are opaque values of type W; opening one is a parameter of
    the operation that needs it (its result: None when webroot_open fails),
    and every webroot_unref call is recorded, in order, in `released`
    (None stands for an unref of NULL). */
module Vhosts {
  import opened Bytes
  import opened Critbit

  /** The file name that stands for the default webroot, "__default__". */
  const DEFAULT_NAME: seq<bv8> :=
    [0x5f, 0x5f, 0x64, 0x65, 0x66, 0x61, 0x75, 0x6c, 0x74, 0x5f, 0x5f]

  /** A directory watch's vhosts (`struct _vhosts`). */
  class Vhosts<W> {
    var hosts: Option<Node<W>>
    var vdefault: Option<W>
    var released: seq<Option<W>>

    /** The crit-bit invariant of the host map. */
    predicate Valid()
      reads this
    {
      ValidRoot(hosts)
    }

    /** The host map as a map. */
    function Hosts(): map<seq<bv8>, Option<W>>
      reads this
    {
      ContentsOf(hosts)
    }

    /** A table with no hosts and no default (the calloc of vhosts_new). */
    constructor()
      ensures Valid() && hosts.None? && vdefault.None? && released == []
    {
      hosts := None;
      vdefault := None;
      released := [];
    }

    /** vhost_add, for the create and moved_to events. Directories are
        ignored, and nothing changes when the webroot cannot be opened.
        "__default__" replaces the default and releases the old one.
        Any other name maps to the new webroot and releases the webroot
        it mapped to before, if any. `alloc` says whether the crit-bit
        insertion can allocate; when it cannot, nothing changes. */
    method Add(name: seq<bv8>, isdir: bool, webroot: Option<W>, alloc: bool)
      requires Valid() && CString(name)
      modifies this
      ensures Valid()
      ensures isdir || webroot.None? ==>
        hosts == old(hosts) && vdefault == old(vdefault) && released == old(released)
      ensures !isdir && webroot.Some? && name == DEFAULT_NAME ==>
        hosts == old(hosts) && vdefault == webroot && released == old(released) + [old(vdefault)]
      ensures !isdir && webroot.Some? && name != DEFAULT_NAME && !alloc && name !in old(Hosts()) ==>
        hosts == old(hosts) && vdefault == old(vdefault) && released == old(released)
      ensures !isdir && webroot.Some? && name != DEFAULT_NAME && (alloc || name in old(Hosts())) ==>
        Hosts() == old(Hosts())[name := webroot] && vdefault == old(vdefault) &&
        released == old(released) +
          (if name in old(Hosts()) && old(Hosts())[name].Some? then [old(Hosts())[name]] else [])
    {
      if isdir || webroot.None? {
        return;
      }
      if name == DEFAULT_NAME {
        released := released + [vdefault];
        vdefault := webroot;
        return;
      }
      var r := Insert(hosts, name, alloc);
      InsertedSlot(hosts, name, alloc, webroot);
      if r.code == 0 {
        return;
      }
      var root := r.root.value;
      var slot := BestMatch(root, name).val;
      if slot.Some? {
        released := released + [slot];
      }
      hosts := Some(Assign(root, name, webroot));
    }

    /** vhost_del, for the delete and moved_from events, as corrected:
        directories are ignored, "__default__" releases and clears the
        default, and any other name is removed from the map, releasing
        the webroot it mapped to when there was one. */
    method Del(name: seq<bv8>, isdir: bool)
      requires Valid()
      modifies this
      ensures Valid()
      ensures isdir ==> hosts == old(hosts) && vdefault == old(vdefault) && released == old(released)
      ensures !isdir && name == DEFAULT_NAME ==>
        hosts == old(hosts) && vdefault.None? && released == old(released) + [old(vdefault)]
      ensures !isdir && name != DEFAULT_NAME ==>
        Hosts() == old(Hosts()) - {name} && vdefault == old(vdefault) &&
        released == old(released) + (if name in old(Hosts()) then [old(Hosts())[name]] else [])
    {
      if isdir {
        return;
      }
      if name == DEFAULT_NAME {
        released := released + [vdefault];
        vdefault := None;
        return;
      }
      DeleteCorrect(hosts, name);
      var r := Delete(hosts, name);
      hosts := r.root;
      if r.code == 1 {
        released := released + [r.val];
      }
    }

    /** vhost_del as written: when the name is not in the map, cb_delete
        leaves `w` unset and the webroot_unref call receives whatever the
        uninitialised variable holds, here the parameter `garbage`. */
    method DelAsWritten(name: seq<bv8>, isdir: bool, garbage: Option<W>)
      requires Valid()
      modifies this
      ensures Valid()
      ensures !isdir && name != DEFAULT_NAME && name !in old(Hosts()) ==>
        Hosts() == old(Hosts()) && released == old(released) + [garbage]
    {
      if isdir {
        return;
      }
      if name == DEFAULT_NAME {
        released := released + [vdefault];
        vdefault := None;
        return;
      }
      DeleteCorrect(hosts, name);
      var r := Delete(hosts, name);
      hosts := r.root;
      var w := if r.code == 1 then r.val else garbage;
      released := released + [w];
    }

    /** vhosts_lookup: the webroot mapped for host, else the default
        (which may be NULL). */
    method Lookup(host: seq<bv8>) returns (w: Option<W>)
      requires Valid() && CString(host)
      ensures w == if host in Hosts() then Hosts()[host] else vdefault
    {
      var found, val := Contains(hosts, host);
      if found {
        return val;
      }
      return vdefault;
    }
  }

  /** After cb_insert, the slot of name holds the value it had before
      (None for a fresh leaf), and writing the webroot into it gives the
      old map updated at name. */
  lemma InsertedSlot<W>(hosts: Option<Node<W>>, name: seq<bv8>, alloc: bool, w: Option<W>)
    requires ValidRoot(hosts) && CString(name)
    ensures var r := Insert(hosts, name, alloc);
      (r.code == 0 <==> !alloc && name !in ContentsOf(hosts)) &&
      (r.code == 0 ==> r.root == hosts) &&
      (r.code != 0 ==>
        r.root.Some? &&
        BestMatch(r.root.value, name).val ==
          (if name in ContentsOf(hosts) then ContentsOf(hosts)[name] else None) &&
        ValidRoot(Some(Assign(r.root.value, name, w))) &&
        ContentsOf(Some(Assign(r.root.value, name, w))) == ContentsOf(hosts)[name := w])
  {
    InsertCorrect(hosts, name, alloc);
    var r := Insert(hosts, name, alloc);
    if r.code != 0 {
      var m := ContentsOf(hosts);
      var v := if name in m then m[name] else None;
      if r.code == 1 {
        assert m[name := v] == m;
      }
      SlotAfter(m, r.root.value, name, w, v);
    }
  }

  /** In a valid tree holding m with name set to v, the slot of name holds
      v, and writing w into it gives m with name set to w. */
  lemma SlotAfter<W>(m: map<seq<bv8>, Option<W>>, root: Node<W>, name: seq<bv8>, w: Option<W>, v: Option<W>)
    requires Valid(root) && Contents(root) == m[name := v]
    ensures BestMatch(root, name).val == v
    ensures Valid(Assign(root, name, w)) && Contents(Assign(root, name, w)) == m[name := w]
  {
    FindsPresent(root, name);
    AssignCorrect(root, name, w);
    Overwrite(m, name, v, w);
  }

  /** A second update of the same key replaces the first. */
  lemma Overwrite<K, V>(m: map<K, V>, k: K, v: V, w: V)
    ensures m[k := v][k := w] == m[k := w]
  {
  }
}
