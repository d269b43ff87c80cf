/** Formatting of a Kubernetes group/version/kind triple as one dotted name
    and the best-effort inverse parse, plus the split of an `apiVersion`
    string into group and version. */
module Gvk {
  import opened GoStrings

  /** `schema.GroupVersionKind`: three free-form strings. */
  datatype GroupVersionKind = GroupVersionKind(group: string, version: string, kind: string)

  /** A possibly-nil `*schema.GroupVersionKind`. */
  datatype Option<T> = None | Some(value: T)

  /** What a nil triple formats to. */
  const EmptyGvk: string := "empty gvk"
  /** What a triple with an empty kind formats to. */
  const EmptyKind: string := "empty kind in gvk"

  /** The all-empty triple the parse falls back to. */
  const Blank: GroupVersionKind := GroupVersionKind("", "", "")

  /** The fields that appear in a formatted name, in the order they appear:
      the kind, then the version and the group when they are non-empty. */
  function Shown(g: GroupVersionKind): seq<string>
  {
    [g.kind]
    + (if g.version != "" then [g.version] else [])
    + (if g.group != "" then [g.group] else [])
  }

  /** `GVKToString`: `kind[.version][.group]`, or a sentinel for nil and for
      an empty kind. */
  function GVKToString(gvk: Option<GroupVersionKind>): (r: string)
    ensures gvk.None? ==> r == EmptyGvk
    ensures gvk.Some? && gvk.value.kind == "" ==> r == EmptyKind
    ensures gvk.Some? && gvk.value.kind != "" ==> r == Join(Shown(gvk.value), '.')
  {
    match gvk
    case None => EmptyGvk
    case Some(g) =>
      if g.kind == "" then EmptyKind
      else
        var withVersion := g.kind + (if g.version != "" then "." + g.version else "");
        var r := withVersion + (if g.group != "" then "." + g.group else "");
        assert r == Join(Shown(g), '.') by {
          var sh := Shown(g);
          if g.version != "" && g.group != "" {
            assert sh == [g.kind, g.version, g.group];
            assert Join(sh, '.') == g.kind + "." + Join(sh[1..], '.');
            assert Join(sh[1..], '.') == g.version + "." + Join(sh[1..][1..], '.');
          } else if g.version != "" || g.group != "" {
            assert sh == [g.kind, if g.version != "" then g.version else g.group];
            assert Join(sh, '.') == g.kind + "." + Join(sh[1..], '.');
          } else {
            assert sh == [g.kind];
          }
        }
        r
  }

  /** `StringToGroupVersionKind`: with at least two dots, the text before
      the first dot is the kind, the text between the first two dots the
      version and all the rest (dots included) the group; otherwise three
      empty strings. The triple is returned as (group, version, kind). */
  function StringToGroupVersionKind(s: string): (r: (string, string, string))
    ensures Count(s, '.') < 2 ==> r == ("", "", "")
    ensures Count(s, '.') >= 2 ==>
      && Free(r.2, '.') && Free(r.1, '.')
      && r.2 + "." + r.1 + "." + r.0 == s
  {
    if Count(s, '.') >= 2 then
      var p := SplitN(s, '.', 3);
      SplitNThreeRejoin(s, '.');
      (p[2], p[1], p[0])
    else ("", "", "")
  }

  /** `StringToGVK`: the parse, as a triple. */
  function StringToGVK(s: string): (g: GroupVersionKind)
    ensures Count(s, '.') < 2 ==> g == Blank
    ensures Count(s, '.') >= 2 ==>
      && Free(g.kind, '.') && Free(g.version, '.')
      && g.kind + "." + g.version + "." + g.group == s
  {
    var (group, version, kind) := StringToGroupVersionKind(s);
    GroupVersionKind(group, version, kind)
  }

  /** `apiVersionToGroupVersion`: `group/version` split at the first slash;
      without a slash the whole string is the version and the group is
      empty. */
  function ApiVersionToGroupVersion(apiVersion: string): (r: (string, string))
    ensures Free(apiVersion, '/') ==> r == ("", apiVersion)
    ensures !Free(apiVersion, '/') ==> Free(r.0, '/') && r.0 + "/" + r.1 == apiVersion
  {
    var split := Split(apiVersion, '/');
    SplitOne(apiVersion, '/');
    IndexFirst(apiVersion, '/');
    if |split| > 1 then
      SplitTail(apiVersion, '/');
      CutAt(apiVersion, Index(apiVersion, '/'));
      (split[0], Join(split[1..], '/'))
    else ("", apiVersion)
  }

  /** `GetGVKFromAPIVersionKind`: the split `apiVersion` with `kind` passed
      through unchanged. */
  function GetGVKFromAPIVersionKind(apiVersion: string, kind: string): (g: GroupVersionKind)
    ensures g.kind == kind
    ensures Free(apiVersion, '/') ==> g.group == "" && g.version == apiVersion
    ensures !Free(apiVersion, '/') ==> Free(g.group, '/') && g.group + "/" + g.version == apiVersion
  {
    var (group, version) := ApiVersionToGroupVersion(apiVersion);
    GroupVersionKind(group, version, kind)
  }

  /** A separator-free head is determined by the position of the first
      separator. */
  lemma HeadUnique(a: string, x: string, b: string, y: string, c: char)
    requires Free(a, c) && Free(b, c)
    requires a + [c] + x == b + [c] + y
    ensures a == b && x == y
  {
    var s := a + [c] + x;
    assert s[|a|] == c && forall k :: 0 <= k < |a| ==> s[k] == a[k];
    assert s[|b|] == c && forall k :: 0 <= k < |b| ==> s[k] == b[k];
    assert a == s[..|a|] == b;
    assert x == s[|a| + 1..] == y;
  }

  /** Writing a slash-free group and any version as `group/version` and
      splitting the result gives the two back. */
  lemma ApiVersionRoundTrip(group: string, version: string)
    requires Free(group, '/')
    ensures ApiVersionToGroupVersion(group + "/" + version) == (group, version)
  {
    var s := group + "/" + version;
    assert s[|group|] == '/';
    var r := ApiVersionToGroupVersion(s);
    HeadUnique(group, version, r.0, r.1, '/');
  }

  /** The dots of `kind.version.group` are those of its three parts and the
      two written between them. */
  lemma CountDotted(kind: string, version: string, group: string)
    ensures Count(kind + "." + version + "." + group, '.')
         == Count(kind, '.') + Count(version, '.') + Count(group, '.') + 2
  {
    assert kind + "." + version + "." + group == kind + ("." + (version + ("." + group)));
    CountConcat(kind, "." + (version + ("." + group)), '.');
    CountConcat(".", version + ("." + group), '.');
    CountConcat(version, "." + group, '.');
    CountConcat(".", group, '.');
  }

  /** Dot-free kind and version are fixed by the text they are written
      into: two readings of the same `kind.version.group` agree. */
  lemma DottedUnique(s: string, kind: string, version: string, group: string, g: GroupVersionKind)
    requires Free(kind, '.') && Free(version, '.')
    requires s == kind + "." + version + "." + group
    requires Free(g.kind, '.') && Free(g.version, '.')
    requires g.kind + "." + g.version + "." + g.group == s
    ensures g == GroupVersionKind(group, version, kind)
  {
    var tail := version + "." + group;
    assert s == kind + "." + tail;
    assert s == g.kind + "." + (g.version + "." + g.group);
    HeadUnique(kind, tail, g.kind, g.version + "." + g.group, '.');
    HeadUnique(version, group, g.version, g.group, '.');
  }

  /** A name written as `kind.version.group` with a dot-free kind and
      version parses back to exactly that triple. */
  lemma ParseUnique(kind: string, version: string, group: string)
    requires Free(kind, '.') && Free(version, '.')
    ensures StringToGVK(kind + "." + version + "." + group) == GroupVersionKind(group, version, kind)
  {
    var s := kind + "." + version + "." + group;
    CountDotted(kind, version, group);
    DottedUnique(s, kind, version, group, StringToGVK(s));
  }

  /** Formatting then parsing is the identity when kind and version are
      non-empty and dot-free and the group is non-empty. */
  lemma RoundTrip(g: GroupVersionKind)
    requires g.kind != "" && g.version != "" && g.group != ""
    requires Free(g.kind, '.') && Free(g.version, '.')
    ensures StringToGVK(GVKToString(Some(g))) == g
  {
    assert GVKToString(Some(g)) == g.kind + "." + g.version + "." + g.group;
    ParseUnique(g.kind, g.version, g.group);
  }

  /** A name containing no dot parses to the blank triple. */
  lemma DotFreeParsesBlank(s: string)
    requires Free(s, '.')
    ensures StringToGVK(s) == Blank
  {
    CountZero(s, '.');
  }

  /** An empty kind formats to the sentinel, which parses to the blank
      triple whatever the version and group were. */
  lemma EmptyKindParsesBlank(g: GroupVersionKind)
    requires g.kind == ""
    ensures StringToGVK(GVKToString(Some(g))) == Blank
  {
    var s := EmptyKind;
    assert forall k :: 0 <= k < |s| ==> s[k] != '.';
    DotFreeParsesBlank(s);
  }

  /** A triple with an empty version and a dotted group does not survive
      the round trip: `Kind.apps.k8s.io`, written from group `apps.k8s.io`
      and no version, reads back as version `apps` and group `k8s.io`. */
  lemma EmptyVersionMisparsed(kind: string, first: string, rest: string)
    requires kind != "" && Free(kind, '.') && Free(first, '.')
    ensures GVKToString(Some(GroupVersionKind(first + "." + rest, "", kind)))
         == kind + "." + first + "." + rest
    ensures StringToGVK(kind + "." + first + "." + rest) == GroupVersionKind(rest, first, kind)
  {
    assert kind + "." + (first + "." + rest) == kind + "." + first + "." + rest;
    ParseUnique(kind, first, rest);
  }

  /** A triple with an empty group formats with a single dot, which the
      parse rejects: `Pod.v1` reads back as the blank triple. */
  lemma EmptyGroupLost(kind: string, version: string)
    requires kind != "" && version != "" && Free(kind, '.') && Free(version, '.')
    ensures GVKToString(Some(GroupVersionKind("", version, kind))) == kind + "." + version
    ensures StringToGVK(kind + "." + version) == Blank
  {
    CountZero(kind, '.');
    CountZero(version, '.');
    CountConcat(kind, "." + version, '.');
    CountConcat(".", version, '.');
    assert kind + ("." + version) == kind + "." + version;
  }

  /** With a non-empty kind and an empty version the round trip fails. */
  lemma EmptyVersionFails(g: GroupVersionKind)
    requires g.kind != "" && g.version == ""
    ensures StringToGVK(GVKToString(Some(g))) != g
  {
    var s := GVKToString(Some(g));
    if g.group != "" {
      assert s == g.kind + "." + g.group;
    } else {
      assert s == g.kind;
    }
  }

  /** With non-empty kind and version but an empty group the round trip
      fails. */
  lemma EmptyGroupFails(g: GroupVersionKind)
    requires g.kind != "" && g.version != "" && g.group == ""
    ensures StringToGVK(GVKToString(Some(g))) != g
  {
    assert GVKToString(Some(g)) == g.kind + "." + g.version;
  }

  /** The round trip holds exactly when its conditions hold (or the triple
      is blank, which the empty-kind sentinel also parses back to). */
  lemma RoundTripExactly(g: GroupVersionKind)
    ensures StringToGVK(GVKToString(Some(g))) == g <==>
              (|| g == Blank
               || (&& g.kind != "" && g.version != "" && g.group != ""
                   && Free(g.kind, '.') && Free(g.version, '.')))
  {
    if g.kind == "" {
      EmptyKindParsesBlank(g);
    } else if g.version == "" {
      EmptyVersionFails(g);
    } else if g.group == "" {
      EmptyGroupFails(g);
    } else if Free(g.kind, '.') && Free(g.version, '.') {
      RoundTrip(g);
    }
  }
}
