/**
 * determineImageURL (main.c): pick the runtime-class image from the host name
 * by an ordered chain of substring tests. The image URLs themselves are only
 * named here, by the tag of the runtime they stand for.
 */
module Classifier {
  import opened CStrings
  import opened Matcher

  /** The seven image URLs the program can answer with. */
  datatype RuntimeImage =
    | Firecracker   // imageFirecrackerURL
    | QEMU          // imageQEMUURL
    | CLH           // imageCLHURL
    | Dragonball    // imageRSURL
    | UruncFC       // imageURUNCFCURL
    | UruncQEMU     // imageURUNCQEMUURL
    | Container     // imageContainerURL, the default

  datatype Rule = Rule(pattern: seq<char>, image: RuntimeImage)

  /** The tests in the order the program makes them; the first one that matches wins. */
  const Rules: seq<Rule> := [
    Rule("hellofc", Firecracker),
    Rule("helloqemu", QEMU),
    Rule("helloclh", CLH),
    Rule("hellors", Dragonball),
    Rule("hellouruncfc", UruncFC),
    Rule("hellouruncqemu", UruncQEMU)
  ]

  /** The pattern of rule `i` is in the host's C string. */
  ghost predicate RuleMatches(host: Option<seq<char>>, i: nat)
    requires host.Some? ==> Terminated(host.value)
    requires i < |Rules|
  {
    host.Some? && Occurs(CStr(host.value), Rules[i].pattern)
  }

  /**
   * determineImageURL: the chain of tests as the program writes it.
   * DetermineImageUrlFirstMatch states what it selects.
   */
  function DetermineImageUrl(host: Option<seq<char>>): RuntimeImage
    requires host.Some? ==> Terminated(host.value)
  {
    if Find(host, "hellofc").Some? then Firecracker
    else if Find(host, "helloqemu").Some? then QEMU
    else if Find(host, "helloclh").Some? then CLH
    else if Find(host, "hellors").Some? then Dragonball
    else if Find(host, "hellouruncfc").Some? then UruncFC
    else if Find(host, "hellouruncqemu").Some? then UruncQEMU
    else Container
  }

  /** The position in Rules of the rule that yields `image`; the default comes after them all. */
  function RuleIndex(image: RuntimeImage): (k: nat)
    ensures k <= |Rules|
    ensures k < |Rules| ==> Rules[k].image == image
    ensures k == |Rules| <==> image == Container
    ensures forall j :: 0 <= j < |Rules| && Rules[j].image == image ==> j == k
  {
    match image
    case Firecracker => 0
    case QEMU => 1
    case CLH => 2
    case Dragonball => 3
    case UruncFC => 4
    case UruncQEMU => 5
    case Container => 6
  }

  /**
   * The chain selects the image of the first rule whose pattern the host
   * contains, and the container image when the host is NULL or contains none
   * of the patterns.
   */
  lemma DetermineImageUrlFirstMatch(host: Option<seq<char>>)
    requires host.Some? ==> Terminated(host.value)
    ensures var k := RuleIndex(DetermineImageUrl(host));
            && (k < |Rules| ==> RuleMatches(host, k))
            && forall j :: 0 <= j < k ==> !RuleMatches(host, j)
  {
    var k := RuleIndex(DetermineImageUrl(host));
    forall j | 0 <= j < |Rules|
      ensures RuleMatches(host, j) <==> Find(host, Rules[j].pattern).Some?
    {
    }
    forall j | 0 <= j < k
      ensures !RuleMatches(host, j)
    {
      if j == 0 {
      } else if j == 1 {
      } else if j == 2 {
      } else if j == 3 {
      } else if j == 4 {
      } else {
      }
    }
  }

  /**
   * Conversely, the image of the first rule whose pattern the host contains
   * is the one the chain selects.
   */
  lemma FirstMatchDeterminesImage(host: Option<seq<char>>, k: nat)
    requires host.Some? ==> Terminated(host.value)
    requires k < |Rules| && RuleMatches(host, k)
    requires forall j :: 0 <= j < k ==> !RuleMatches(host, j)
    ensures DetermineImageUrl(host) == Rules[k].image
  {
    DetermineImageUrlFirstMatch(host);
  }

  /** With no pattern in the host, or no host at all, the chain falls through to the container image. */
  lemma NoMatchIsContainer(host: Option<seq<char>>)
    requires host.Some? ==> Terminated(host.value)
    requires forall j :: 0 <= j < |Rules| ==> !RuleMatches(host, j)
    ensures DetermineImageUrl(host) == Container
  {
    DetermineImageUrlFirstMatch(host);
  }

  /** The host "hellofc" gets the Firecracker image: its pattern is tested first. */
  lemma FirecrackerHost(s: seq<char>)
    requires s == "hellofc"
    ensures DetermineImageUrl(Some(s + [NUL])) == Firecracker
  {
    var host := Some(s + [NUL]);
    CStrOfContent(s, [NUL]);
    assert RuleMatches(host, 0) by {
      assert OccursAt(s, 0, s);
    }
    FirstMatchDeterminesImage(host, 0);
  }

  /**
   * "hellofc", "helloqemu", "helloclh" and "hellors" are not in
   * "hellouruncfc": each of them has another character after "hello". So the
   * host "hellouruncfc" gets the urunc Firecracker image.
   */
  lemma UruncFirecrackerHost(s: seq<char>)
    requires s == "hellouruncfc"
    ensures DetermineImageUrl(Some(s + [NUL])) == UruncFC
  {
    var host := Some(s + [NUL]);
    CStrOfContent(s, [NUL]);
    assert forall i :: 0 < i < |s| ==> s[i] != 'h';
    forall k | 0 <= k < 4
      ensures !RuleMatches(host, k)
    {
      OccursOnlyAtStart(s, Rules[k].pattern);
      assert s[5] != Rules[k].pattern[5];
    }
    assert RuleMatches(host, 4) by {
      assert OccursAt(s, 0, s);
    }
    FirstMatchDeterminesImage(host, 4);
  }

  /** Likewise none of the five earlier patterns is in "hellouruncqemu". */
  lemma UruncQemuHost(s: seq<char>)
    requires s == "hellouruncqemu"
    ensures DetermineImageUrl(Some(s + [NUL])) == UruncQEMU
  {
    var host := Some(s + [NUL]);
    CStrOfContent(s, [NUL]);
    assert forall i :: 0 < i < |s| ==> s[i] != 'h';
    forall k | 0 <= k < 5
      ensures !RuleMatches(host, k)
    {
      OccursOnlyAtStart(s, Rules[k].pattern);
      if k < 4 {
        assert s[5] != Rules[k].pattern[5];
      } else {
        assert s[10] != Rules[k].pattern[10];
      }
    }
    assert RuleMatches(host, 5) by {
      assert OccursAt(s, 0, s);
    }
    FirstMatchDeterminesImage(host, 5);
  }

  /** The chain reads the host only up to its NUL. */
  lemma DetermineImageUrlReadsCString(a: seq<char>, b: seq<char>)
    requires Terminated(a) && Terminated(b) && CStr(a) == CStr(b)
    ensures DetermineImageUrl(Some(a)) == DetermineImageUrl(Some(b))
  {
  }
}
