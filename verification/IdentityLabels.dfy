/** The canonical keys of the well-known label sets
    (crates/flowsdn-agent/src/identity.rs:72-98,
    crates/flowsdn-identity/src/labels.rs:114-125): each label once, in the order of
    its key. */
module IdentityLabels {
  import opened Bytes
  import opened Identity

  type Pair = (string, string)

  /** The labels of a cluster DNS pod. */
  function DnsLabels(account: string, eks: Option<string>, metadata: bool, cluster: string): set<Pair>
  {
    {(APP, "kube-dns"), (NAMESPACE, "kube-system"), (ACCOUNT, account), (CLUSTER, cluster)}
    + (if eks.Some? then {(EKS, eks.value)} else {})
    + (if metadata then {(METADATA, "kube-system")} else {})
  }

  function Spelled(pairs: seq<Pair>): string
  {
    if pairs == [] then ""
    else "k8s:" + pairs[0].0 + "=" + pairs[0].1 + ";" + Spelled(pairs[1..])
  }

  ghost predicate Ascending(pairs: seq<Pair>)
  {
    forall i :: 0 <= i < |pairs| - 1 ==> Precedes(pairs[i].0, pairs[i + 1].0)
  }

  /** The text lists the labels, each once, in the order of their keys. */
  ghost predicate IsCanonical(text: string, labels: set<Pair>)
  {
    exists pairs :: Ascending(pairs) && (forall p :: p in pairs <==> p in labels) && text == Spelled(pairs)
  }

  lemma FirstDiffer(a: string, b: string, k: nat)
    requires k < |a| && k < |b| && a[..k] == b[..k] && a[k] < b[k]
    ensures Precedes(a, b)
  {
  }

  lemma EksFirst()
    ensures Precedes(EKS, METADATA) && Precedes(EKS, CLUSTER)
  {
    assert EKS[0] == 'e' && NAMESPACE_LABELS[0] == 'i' && CLUSTER[0] == 'i';
    assert METADATA[0] == NAMESPACE_LABELS[0];
    FirstDiffer(EKS, METADATA, 0);
    FirstDiffer(EKS, CLUSTER, 0);
  }

  lemma MetadataFirst()
    ensures Precedes(METADATA, CLUSTER)
  {
    assert NAMESPACE_LABELS[..15] == "io.flowsdn.k8s." == CLUSTER[..15];
    assert NAMESPACE_LABELS[15] == 'n' && CLUSTER[15] == 'p';
    assert METADATA[..15] == NAMESPACE_LABELS[..15] && METADATA[15] == NAMESPACE_LABELS[15];
    FirstDiffer(METADATA, CLUSTER, 15);
  }

  lemma ClusterFirst()
    ensures Precedes(CLUSTER, ACCOUNT)
  {
    assert CLUSTER[..22] == "io.flowsdn.k8s.policy." == ACCOUNT[..22];
    assert CLUSTER[22] == 'c' && ACCOUNT[22] == 's';
    FirstDiffer(CLUSTER, ACCOUNT, 22);
  }

  lemma AccountFirst()
    ensures Precedes(ACCOUNT, NAMESPACE) && Precedes(NAMESPACE, APP)
  {
    assert ACCOUNT[0] == 'i' && ACCOUNT[1] == 'o' && ACCOUNT[2] == '.';
    assert NAMESPACE[1] == 'o' && NAMESPACE[2] == '.';
    assert ACCOUNT[3] == 'f' && NAMESPACE[3] == 'k' && NAMESPACE[0] == 'i' && APP[0] == 'k';
    FirstDiffer(ACCOUNT, NAMESPACE, 3);
    FirstDiffer(NAMESPACE, APP, 0);
  }

  lemma SpelledMore(p: Pair, rest: seq<Pair>)
    ensures Spelled([p] + rest) == Label(p.0, p.1) + Spelled(rest)
  {
    assert ([p] + rest)[1..] == rest;
  }

  lemma TailSpelled(c: Pair, a: Pair, n: Pair, p: Pair)
    ensures Spelled([c, a, n, p]) == Label(c.0, c.1) + Label(a.0, a.1) + Label(n.0, n.1) + Label(p.0, p.1)
  {
    hide Label;
    SpelledMore(c, [a, n, p]);
    SpelledMore(a, [n, p]);
    SpelledMore(n, [p]);
    SpelledMore(p, []);
    assert [c] + [a, n, p] == [c, a, n, p] && [a] + [n, p] == [a, n, p];
    assert [n] + [p] == [n, p] && [p] + [] == [p];
  }

  lemma Regroup(e: string, m: string, c: string, a: string, n: string, p: string)
    ensures e + m + c + a + n + p == e + (m + (c + a + n + p))
  {
  }

  /** Six labels in order, the first two of them optional. */
  lemma InOrder(e: Pair, eks: bool, m: Pair, metadata: bool, c: Pair, a: Pair, n: Pair, p: Pair)
    requires Precedes(e.0, m.0) && Precedes(e.0, c.0) && Precedes(m.0, c.0)
    requires Precedes(c.0, a.0) && Precedes(a.0, n.0) && Precedes(n.0, p.0)
    ensures IsCanonical((if eks then Label(e.0, e.1) else "") + (if metadata then Label(m.0, m.1) else "")
                        + Label(c.0, c.1) + Label(a.0, a.1) + Label(n.0, n.1) + Label(p.0, p.1),
                        {p, n, a, c} + (if eks then {e} else {}) + (if metadata then {m} else {}))
  {
    hide Label, Spelled, Precedes;
    var tail := [c, a, n, p];
    var middle := if metadata then [m] + tail else tail;
    var pairs := if eks then [e] + middle else middle;
    assert Ascending(pairs);
    TailSpelled(c, a, n, p);
    SpelledMore(m, tail);
    SpelledMore(e, middle);
    Regroup(if eks then Label(e.0, e.1) else "", if metadata then Label(m.0, m.1) else "",
            Label(c.0, c.1), Label(a.0, a.1), Label(n.0, n.1), Label(p.0, p.1));
  }

  /** The keys the well-known numbers are compared with are canonical. */
  lemma DnsCanonical(account: string, eks: Option<string>, metadata: bool, cluster: string)
    ensures IsCanonical(DnsKey(account, eks, metadata, cluster), DnsLabels(account, eks, metadata, cluster))
  {
    hide Label, Precedes, IsCanonical;
    EksFirst();
    MetadataFirst();
    ClusterFirst();
    AccountFirst();
    InOrder((EKS, if eks.Some? then eks.value else ""), eks.Some?, (METADATA, "kube-system"), metadata,
            (CLUSTER, cluster), (ACCOUNT, account), (NAMESPACE, "kube-system"), (APP, "kube-dns"));
  }
}
