/** The eleven managed files, the services that read them, and their paths. */
module Files {
  import opened Prelude
  import Paths
  import Text

  datatype Service = HAProxy | Keepalived | Conntrackd | NetworkManager | Sysctl | Firewalld

  datatype ConfigFile =
    | HAProxyAPI
    | HAProxyIngress
    | KeepalivedConf
    | Floaty
    | ConntrackdConf
    | PublicNM
    | ClusterNetNM
    | KeepalivedDummyNM
    | SysctlConf
    | ExternalZone
    | DirectRules

  /** The number of managed files. */
  const COUNT: nat := 11

  /** The order in which a reconcile renders and compares them. */
  function Position(f: ConfigFile): (i: nat)
    ensures i < COUNT
  {
    match f
    case HAProxyAPI => 0
    case HAProxyIngress => 1
    case KeepalivedConf => 2
    case Floaty => 3
    case ConntrackdConf => 4
    case PublicNM => 5
    case ClusterNetNM => 6
    case KeepalivedDummyNM => 7
    case SysctlConf => 8
    case ExternalZone => 9
    case DirectRules => 10
  }

  /** The file at a position of that order. */
  function FileAt(i: nat): ConfigFile
    requires i < COUNT
  {
    if i == 0 then HAProxyAPI
    else if i == 1 then HAProxyIngress
    else if i == 2 then KeepalivedConf
    else if i == 3 then Floaty
    else if i == 4 then ConntrackdConf
    else if i == 5 then PublicNM
    else if i == 6 then ClusterNetNM
    else if i == 7 then KeepalivedDummyNM
    else if i == 8 then SysctlConf
    else if i == 9 then ExternalZone
    else DirectRules
  }

  /** Every file has exactly one place in the order. */
  lemma OrderIsBijective(i: nat, f: ConfigFile)
    requires i < COUNT
    ensures FileAt(i) == f <==> Position(f) == i
  {
  }

  /** The service that is reloaded when the file changes. */
  function ServiceOf(f: ConfigFile): Service {
    match f
    case HAProxyAPI | HAProxyIngress => HAProxy
    case KeepalivedConf | Floaty => Keepalived
    case ConntrackdConf => Conntrackd
    case PublicNM | ClusterNetNM | KeepalivedDummyNM => NetworkManager
    case SysctlConf => Sysctl
    case ExternalZone | DirectRules => Firewalld
  }

  /** The directory that holds the file. */
  function Directory(f: ConfigFile): seq<string> {
    match f
    case ConntrackdConf => ["etc", "conntrackd"]
    case Floaty => ["etc", "floaty"]
    case HAProxyAPI | HAProxyIngress => ["etc", "haproxy", "conf.d"]
    case KeepalivedConf => ["etc", "keepalived", "conf.d"]
    case PublicNM | ClusterNetNM | KeepalivedDummyNM => ["etc", "NetworkManager", "system-connections"]
    case SysctlConf => ["etc", "sysctl.d"]
    case DirectRules => ["etc", "firewalld"]
    case ExternalZone => ["etc", "firewalld", "zones"]
  }

  function Stem(f: ConfigFile): string {
    match f
    case ConntrackdConf => "conntrackd"
    case Floaty => "global"
    case HAProxyAPI => "api"
    case HAProxyIngress => "ingress"
    case KeepalivedConf => "lb"
    case PublicNM => "public"
    case ClusterNetNM => "cluster-net"
    case KeepalivedDummyNM => "keepalived"
    case SysctlConf => "50-lb"
    case DirectRules => "direct"
    case ExternalZone => "external"
  }

  function Extension(f: ConfigFile): string {
    match f
    case ConntrackdConf | KeepalivedConf | SysctlConf => ".conf"
    case Floaty => ".yaml"
    case HAProxyAPI | HAProxyIngress => ".cfg"
    case PublicNM | ClusterNetNM | KeepalivedDummyNM => ".nmconnection"
    case DirectRules | ExternalZone => ".xml"
  }

  function BaseName(f: ConfigFile): string {
    Stem(f) + Extension(f)
  }

  /** The components of the file's absolute name. */
  function Parts(f: ConfigFile): seq<string> {
    Directory(f) + [BaseName(f)]
  }

  /** The file's absolute name, which is also its key among the config hashes. */
  function Name(f: ConfigFile): string {
    Paths.FromRoot(Parts(f))
  }

  const DIGEST_EXT := ".sha256"

  function ConfigPath(root: string, f: ConfigFile): string {
    Paths.Join(root, Name(f))
  }

  function DigestPath(root: string, f: ConfigFile): string {
    ConfigPath(root, f) + DIGEST_EXT
  }

  lemma DirectoryPlain(f: ConfigFile)
    ensures forall c :: c in Directory(f) ==> Paths.Plain(c)
  {
    assert Paths.Plain("etc") && Paths.Plain("conf.d");
    match f
    case PublicNM | ClusterNetNM | KeepalivedDummyNM => LongWordsPlain();
    case _ =>
  }

  lemma LongWordsPlain()
    ensures Paths.Plain("NetworkManager") && Paths.Plain("system-connections")
  {
  }

  lemma BaseNamePlain(f: ConfigFile)
    ensures Paths.Plain(BaseName(f))
  {
    ExtensionPlain(f);
    assert '/' !in Stem(f) && |Stem(f)| >= 2;
  }

  lemma ExtensionPlain(f: ConfigFile)
    ensures var ext := Extension(f);
            |ext| >= 2 && ext[0] == '.' && '.' !in ext[1..] && '/' !in ext && Last(ext) != '6'
  {
    match f
    case PublicNM | ClusterNetNM | KeepalivedDummyNM => assert ".nmconnection"[1..] == "nmconnection";
    case Floaty => assert ".yaml"[1..] == "yaml";
    case HAProxyAPI | HAProxyIngress => assert ".cfg"[1..] == "cfg";
    case DirectRules | ExternalZone => assert ".xml"[1..] == "xml";
    case _ => assert ".conf"[1..] == "conf";
  }

  lemma PartsPlain(f: ConfigFile)
    ensures Paths.PlainParts(Parts(f))
  {
    DirectoryPlain(f);
    BaseNamePlain(f);
  }

  lemma PartsDistinct(f: ConfigFile, g: ConfigFile)
    requires Parts(f) == Parts(g)
    ensures f == g
  {
    assert Directory(f) == DropLast(Parts(f)) == DropLast(Parts(g)) == Directory(g);
    assert BaseName(f) == Last(Parts(f)) == Last(Parts(g)) == BaseName(g);
    assert |Directory(f)| == |Directory(g)| && |Directory(f)[1]| == |Directory(g)[1]|;
    assert |BaseName(f)| == |BaseName(g)|;
  }

  lemma NamesDistinct(f: ConfigFile, g: ConfigFile)
    requires Name(f) == Name(g)
    ensures f == g
  {
    PartsPlain(f);
    PartsPlain(g);
    Paths.ComponentsFromRoot(Parts(f));
    Paths.ComponentsFromRoot(Parts(g));
    assert ([""] + Parts(f))[1..] == Parts(f) && ([""] + Parts(g))[1..] == Parts(g);
    PartsDistinct(f, g);
  }

  /** The parts of the eleven names. */
  function Spelled(f: ConfigFile): seq<string> {
    match f
    case ConntrackdConf => ["etc", "conntrackd", "conntrackd.conf"]
    case Floaty => ["etc", "floaty", "global.yaml"]
    case HAProxyAPI => ["etc", "haproxy", "conf.d", "api.cfg"]
    case HAProxyIngress => ["etc", "haproxy", "conf.d", "ingress.cfg"]
    case KeepalivedConf => ["etc", "keepalived", "conf.d", "lb.conf"]
    case PublicNM => ["etc", "NetworkManager", "system-connections", "public.nmconnection"]
    case ClusterNetNM => ["etc", "NetworkManager", "system-connections", "cluster-net.nmconnection"]
    case KeepalivedDummyNM => ["etc", "NetworkManager", "system-connections", "keepalived.nmconnection"]
    case SysctlConf => ["etc", "sysctl.d", "50-lb.conf"]
    case DirectRules => ["etc", "firewalld", "direct.xml"]
    case ExternalZone => ["etc", "firewalld", "zones", "external.xml"]
  }

  lemma BaseSpelled(f: ConfigFile)
    ensures BaseName(f) == Last(Spelled(f))
  {
    hide Stem, Extension, Spelled;
    if f.PublicNM? || f.ClusterNetNM? || f.KeepalivedDummyNM? { ConnectionSpelled(f); } else { ShortSpelled(f); }
  }

  lemma ConnectionSpelled(f: ConfigFile)
    requires f.PublicNM? || f.ClusterNetNM? || f.KeepalivedDummyNM?
    ensures BaseName(f) == Last(Spelled(f))
  {
  }

  lemma ShortSpelled(f: ConfigFile)
    requires !f.PublicNM? && !f.ClusterNetNM? && !f.KeepalivedDummyNM?
    ensures BaseName(f) == Last(Spelled(f))
  {
  }

  lemma PartsSpelled(f: ConfigFile)
    ensures Parts(f) == Spelled(f)
  {
    hide BaseName, Directory, Spelled;
    BaseSpelled(f);
    DirectorySpelled(f);
    assert Spelled(f) == DropLast(Spelled(f)) + [Last(Spelled(f))];
  }

  /** The names, split at their slashes, are those of the source. */
  lemma NameSpelled(f: ConfigFile)
    ensures Paths.Components(Name(f)) == [""] + Spelled(f)
  {
    hide Paths.Components, Paths.FromRoot, Parts, Spelled;
    PartsPlain(f);
    Paths.ComponentsFromRoot(Parts(f));
    PartsSpelled(f);
  }

  lemma DirectorySpelled(f: ConfigFile)
    ensures Spelled(f) != [] && Directory(f) == DropLast(Spelled(f))
  {
  }

  lemma {:induction false} LastOfSlashes(cs: seq<string>)
    requires cs != [] && Last(cs) != ""
    ensures Paths.WithSlashes(cs) != "" && Last(Paths.WithSlashes(cs)) == Last(Last(cs))
  {
    if |cs| > 1 {
      LastOfSlashes(cs[1..]);
    }
  }

  /** The file's name without the leading slash. */
  function Tail(f: ConfigFile): string {
    Paths.WithSlashes(Parts(f))
  }

  /** No config name ends like a digest name. */
  lemma TailLast(f: ConfigFile)
    ensures Tail(f) != "" && Last(Tail(f)) != '6'
  {
    ExtensionPlain(f);
    LastOfSlashes(Parts(f));
  }

  lemma PathIsPrefix(root: string, f: ConfigFile)
    ensures ConfigPath(root, f) == Paths.Base(root) + Tail(f)
  {
    PartsPlain(f);
    Paths.JoinIsPrefix(root, Parts(f));
  }

  lemma SamePrefix(p: string, a: string, b: string)
    requires p + a == p + b
    ensures a == b
  {
    assert (p + a)[|p|..] == a && (p + b)[|p|..] == b;
  }

  lemma ConfigPathsDistinct(root: string, f: ConfigFile, g: ConfigFile)
    requires ConfigPath(root, f) == ConfigPath(root, g)
    ensures f == g
  {
    PathIsPrefix(root, f);
    PathIsPrefix(root, g);
    SamePrefix(Paths.Base(root), Tail(f), Tail(g));
    NamesDistinct(f, g);
  }

  lemma EndsDiffer(a: string, b: string, c: string, d: string)
    requires b != "" && d != "" && Last(b) != Last(d)
    ensures a + b != c + d
  {
    assert Last(a + b) == Last(b) && Last(c + d) == Last(d);
  }

  lemma ConfigIsNoDigest(root: string, f: ConfigFile, g: ConfigFile)
    ensures ConfigPath(root, f) != DigestPath(root, g)
  {
    PathIsPrefix(root, f);
    TailLast(f);
    assert Last(DIGEST_EXT) == '6';
    EndsDiffer(Paths.Base(root), Tail(f), ConfigPath(root, g), DIGEST_EXT);
  }

  /** Under any root, the eleven config files and their eleven digest files are
      twenty-two different files. */
  lemma PathsDistinct(root: string, f: ConfigFile, g: ConfigFile)
    ensures ConfigPath(root, f) == ConfigPath(root, g) ==> f == g
    ensures DigestPath(root, f) == DigestPath(root, g) ==> f == g
    ensures ConfigPath(root, f) != DigestPath(root, g)
  {
    if ConfigPath(root, f) == ConfigPath(root, g) {
      ConfigPathsDistinct(root, f, g);
    }
    if DigestPath(root, f) == DigestPath(root, g) {
      Text.StripJoined(ConfigPath(root, f), DIGEST_EXT);
      Text.StripJoined(ConfigPath(root, g), DIGEST_EXT);
      ConfigPathsDistinct(root, f, g);
    }
    ConfigIsNoDigest(root, f, g);
  }

  lemma PathText(a: string, b: string, c: string, d: string)
    ensures a + (b + (c + d)) == ((a + b) + c) + d
  {
  }

  /** Under any root, exactly the two Firewalld files have XML paths. */
  lemma XmlFiles(root: string, f: ConfigFile)
    ensures Paths.Ext(ConfigPath(root, f)) == ".xml" <==> ServiceOf(f) == Firewalld
  {
    var dir := Paths.WithSlashes(Directory(f)) + "/";
    Paths.WithSlashesJoined(Directory(f), [BaseName(f)]);
    PathIsPrefix(root, f);
    ExtensionPlain(f);
    PathText(Paths.Base(root), dir, Stem(f), Extension(f));
    Paths.ExtOf((Paths.Base(root) + dir) + Stem(f), Extension(f));
  }
}
