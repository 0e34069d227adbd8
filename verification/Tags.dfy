/** Service tags: the references that services hold on IP addresses
    (pkg/tags/tagUtils.go, with the key/value view of tags used around it). */
module Tags {
  import opened Text

  // The two tag keys that build and recognise service tags.
  const CLUSTER_ID := "cluster.metal-stack.io/id"
  const CLUSTER_SERVICE_FQN := CLUSTER_ID + "/namespace/service"

  /** The tag keys that reserve an address for something else. Their texts belong to a
      library outside this repository; all that matters is that they are not the key of
      service tags and not blank. */
  datatype ReservedKeys' = ReservedKeys(machineID: string, clusterEgress: string)
  type ReservedKeys = k: ReservedKeys' |
    && k.machineID != CLUSTER_SERVICE_FQN && k.clusterEgress != CLUSTER_SERVICE_FQN
    && k.machineID != "" && k.clusterEgress != ""
    witness ReservedKeys("m", "e")

  function BuildClusterServiceFQNTag(clusterID: string, namespace: string, serviceName: string): string {
    CLUSTER_SERVICE_FQN + "=" + clusterID + "/" + namespace + "/" + serviceName
  }

  predicate IsMemberOfCluster(tag: string, clusterID: string) {
    && CLUSTER_ID <= tag
    && var parts := Split(tag, '=');
       |parts| == 2 && clusterID <= parts[1]
  }

  /** The key of a tag is the text before its first '='. */
  function Key(tag: string): string {
    Split(tag, '=')[0]
  }

  /** `tag.NewTagMap(tags).Value(key)` reports a value. */
  predicate HasKey(tags: seq<string>, key: string) {
    exists i :: 0 <= i < |tags| && Key(tags[i]) == key
  }

  predicate Reserved(tags: seq<string>, keys: ReservedKeys) {
    HasKey(tags, keys.machineID) || HasKey(tags, keys.clusterEgress)
  }

  /** The key is the longest beginning of the tag without '='. */
  lemma KeyIsText(tag: string)
    ensures Key(tag) <= tag && '=' !in Key(tag)
    ensures |Key(tag)| < |tag| ==> tag[|Key(tag)|] == '='
  {
    if '=' in tag {
      var i := FirstEquals(tag);
      assert tag == tag[..i] + ['='] + tag[i + 1..];
      SplitFirst(tag[..i], '=', tag[i + 1..]);
    } else {
      SplitWhole(tag, '=');
    }
  }

  function FirstEquals(s: string): (i: nat)
    requires '=' in s
    ensures i < |s| && s[i] == '=' && '=' !in s[..i]
  {
    if s[0] == '=' then 0
    else
      var i := 1 + FirstEquals(s[1..]);
      assert s[..i] == [s[0]] + s[1..][..i - 1];
      i
  }

  /** Which tags a cluster takes for its own: a key and a value with one '=' between them, the
      key starting with the cluster key and the value with the cluster ID. */
  lemma MemberExact(tag: string, clusterID: string)
    ensures IsMemberOfCluster(tag, clusterID)
            <==> exists i :: 0 <= i < |tag| && tag[i] == '=' && '=' !in tag[..i] && '=' !in tag[i + 1..]
                   && CLUSTER_ID <= tag[..i] && clusterID <= tag[i + 1..]
  {
    SplitWhole(tag, '=');
    if '=' in tag {
      CutAtEquals(tag, FirstEquals(tag), clusterID);
    }
    forall i | 0 <= i < |tag| && tag[i] == '=' && '=' !in tag[..i]
      ensures '=' in tag && i == FirstEquals(tag)
    {
      assert '=' in tag;
      NoneBefore(tag, i);
      NoneBefore(tag, FirstEquals(tag));
    }
  }

  lemma NoneBefore(s: string, i: nat)
    requires i <= |s| && '=' !in s[..i]
    ensures forall k :: 0 <= k < i ==> s[k] != '='
  {
    forall k | 0 <= k < i ensures s[k] != '=' {
      assert s[k] == s[..i][k];
    }
  }

  lemma CutAtEquals(tag: string, i: nat, clusterID: string)
    requires i < |tag| && tag[i] == '=' && '=' !in tag[..i]
    ensures IsMemberOfCluster(tag, clusterID)
            <==> '=' !in tag[i + 1..] && CLUSTER_ID <= tag[..i] && clusterID <= tag[i + 1..]
  {
    var key, value := tag[..i], tag[i + 1..];
    assert tag == key + ['='] + value;
    SplitFirst(key, '=', value);
    SplitWhole(value, '=');
    PrefixBeforeEquals(CLUSTER_ID, tag, i);
  }

  lemma PrefixBeforeEquals(p: string, tag: string, i: nat)
    requires i < |tag| && tag[i] == '=' && '=' !in p
    ensures p <= tag <==> p <= tag[..i]
  {
    assert p <= tag ==> forall k :: 0 <= k < |p| ==> tag[k] == p[k];
    if p <= tag[..i] {
      assert tag[..|p|] == tag[..i][..|p|];
    }
  }

  lemma FQNHasNoEquals()
    ensures '=' !in CLUSTER_SERVICE_FQN
  {
    assert CLUSTER_SERVICE_FQN == "cluster.metal-stack.io/id/namespace/service";
  }

  /** Cluster and namespace without '/' make tags of different services different. */
  lemma BuildInjective(c: string, ns: string, name: string, c': string, ns': string, name': string)
    requires '/' !in c && '/' !in c' && '/' !in ns && '/' !in ns'
    requires BuildClusterServiceFQNTag(c, ns, name) == BuildClusterServiceFQNTag(c', ns', name')
    ensures c == c' && ns == ns' && name == name'
  {
    var n := |CLUSTER_SERVICE_FQN + "="|;
    var rest, rest' := ns + ['/'] + name, ns' + ['/'] + name';
    var t, t' := BuildClusterServiceFQNTag(c, ns, name), BuildClusterServiceFQNTag(c', ns', name');
    assert t[n..] == c + ['/'] + rest;
    assert t'[n..] == c' + ['/'] + rest';
    CutUnique(c, rest, '/', c', rest');
    CutUnique(ns, name, '/', ns', name');
  }

  /** With a '/' in the cluster part two services can share a tag. */
  lemma SlashBreaksInjectivity()
    ensures BuildClusterServiceFQNTag("a/b", "c", "d") == BuildClusterServiceFQNTag("a", "b/c", "d")
  {
    assert "a/b" + "/" + "c" + "/" + "d" == "a" + "/" + "b/c" + "/" + "d";
    assert BuildClusterServiceFQNTag("a/b", "c", "d") == CLUSTER_SERVICE_FQN + "=" + ("a/b" + "/" + "c" + "/" + "d");
    assert BuildClusterServiceFQNTag("a", "b/c", "d") == CLUSTER_SERVICE_FQN + "=" + ("a" + "/" + "b/c" + "/" + "d");
  }

  lemma BuiltTagSplits(c: string, ns: string, name: string)
    ensures var rest := c + "/" + ns + "/" + name;
            Split(BuildClusterServiceFQNTag(c, ns, name), '=') == [CLUSTER_SERVICE_FQN] + Split(rest, '=')
    ensures Key(BuildClusterServiceFQNTag(c, ns, name)) == CLUSTER_SERVICE_FQN
    ensures BuildClusterServiceFQNTag(c, ns, name) != ""
  {
    var rest := c + "/" + ns + "/" + name;
    FQNHasNoEquals();
    assert BuildClusterServiceFQNTag(c, ns, name) == CLUSTER_SERVICE_FQN + ['='] + rest;
    SplitFirst(CLUSTER_SERVICE_FQN, '=', rest);
  }

  /** Exactly when a cluster takes a built tag for its own: no part contains '=', and the
      asking cluster ID is a prefix of what stands behind the key. */
  lemma MemberIff(c: string, ns: string, name: string, asking: string)
    ensures IsMemberOfCluster(BuildClusterServiceFQNTag(c, ns, name), asking)
            <==> '=' !in c && '=' !in ns && '=' !in name && asking <= c + "/" + ns + "/" + name
  {
    var rest := c + "/" + ns + "/" + name;
    var tag := BuildClusterServiceFQNTag(c, ns, name);
    BuiltTagSplits(c, ns, name);
    SplitWhole(rest, '=');
    assert '=' in rest <==> '=' in c || '=' in ns || '=' in name;
    assert CLUSTER_ID <= tag;
  }

  /** For cluster IDs of equal length, a built tag belongs to its own cluster and to no other. */
  lemma MemberOfOwnClusterOnly(c: string, ns: string, name: string, asking: string)
    requires '=' !in c && '=' !in ns && '=' !in name
    requires |asking| == |c|
    ensures IsMemberOfCluster(BuildClusterServiceFQNTag(c, ns, name), asking) <==> asking == c
  {
    MemberIff(c, ns, name, asking);
    var rest := c + "/" + ns + "/" + name;
    assert rest[..|c|] == c;
    if asking <= rest {
      assert asking == rest[..|asking|];
    }
  }

  /** Without equal lengths the test is too generous: a shorter ID accepts a longer one's tag. */
  lemma ShorterClusterIDAcceptsForeignTag()
    ensures IsMemberOfCluster(BuildClusterServiceFQNTag("ab", "n", "s"), "a")
  {
    MemberIff("ab", "n", "s", "a");
    assert "a" <= "ab" + "/" + "n" + "/" + "s";
  }
}
