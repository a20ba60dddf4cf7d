/** The status badge class of ui/src/Components/Dashboard/Dashboard.jsx:
    a theme class and a slug of the application's status string. Case
    mapping is modelled on ASCII only. */
module Dashboard {
  import ApplicationStore

  /** `toLowerCase` on one ASCII character. */
  function LowerAscii(c: char): char
  {
    if 'A' <= c <= 'Z' then (c as int + 32) as char else c
  }

  /** One character of the slug: lower-cased, and `-` for a space. */
  function SlugChar(c: char): char
  {
    if c == ' ' then '-' else LowerAscii(c)
  }

  /** `status.toLowerCase().replace(/ /g, "-")`: each character lower-cased
      and every space (not just the first) turned into `-`. */
  function Slug(status: string): (r: string)
    ensures |r| == |status|
    ensures forall i :: 0 <= i < |r| ==> r[i] != ' ' && !('A' <= r[i] <= 'Z')
    ensures forall i :: 0 <= i < |r| && status[i] == ' ' ==> r[i] == '-'
    ensures forall i :: 0 <= i < |r| && status[i] != ' ' && !('A' <= status[i] <= 'Z') ==> r[i] == status[i]
    ensures forall i :: 0 <= i < |r| && 'A' <= status[i] <= 'Z' ==> r[i] == (status[i] as int + 32) as char
  {
    seq(|status|, i requires 0 <= i < |status| => SlugChar(status[i]))
  }

  /** A slug has the status's length, no space and no upper-case ASCII
      letter, and slugging it again changes nothing. */
  lemma SlugIsNormal(status: string)
    ensures |Slug(status)| == |status|
    ensures ' ' !in Slug(status)
    ensures forall i :: 0 <= i < |Slug(status)| ==> !('A' <= Slug(status)[i] <= 'Z')
    ensures Slug(Slug(status)) == Slug(status)
  {
  }

  /** The theme class of the badge. */
  function BaseClass(isDark: bool): string
  {
    if isDark then "status-badge-dark" else "status-badge-light"
  }

  const BadgeClass := "status-badge "
  const StatusPrefix := " status-"

  /** `getStatusClassName(status)`. */
  function StatusClassName(status: string, isDark: bool): (r: string)
    ensures |r| == |BadgeClass| + |BaseClass(isDark)| + |StatusPrefix| + |status|
    ensures r[..|BadgeClass|] == BadgeClass && r[|r| - |status|..] == Slug(status)
  {
    BadgeClass + BaseClass(isDark) + StatusPrefix + Slug(status)
  }

  /** The only space of "status-badge " is its last character. */
  lemma BadgeClassSpaces()
    ensures forall i :: 0 <= i < |BadgeClass| ==> (BadgeClass[i] == ' ' <==> i == |BadgeClass| - 1)
  {
  }

  /** The theme class has no space. */
  lemma BaseClassSpaces(isDark: bool)
    ensures ' ' !in BaseClass(isDark)
  {
  }

  /** The only space of " status-" is its first character. */
  lemma StatusPrefixSpaces()
    ensures forall i :: 0 <= i < |StatusPrefix| ==> (StatusPrefix[i] == ' ' <==> i == 0)
  {
  }

  /** The class string is its four segments in order, and its only spaces
      are the two separators after "status-badge" and after the theme class:
      every space of the status is turned into `-`. */
  lemma StatusClassNameShape(status: string, isDark: bool)
    ensures var r := StatusClassName(status, isDark);
      && |r| == |BadgeClass| + |BaseClass(isDark)| + |StatusPrefix| + |status|
      && r[..|BadgeClass|] == BadgeClass
      && r[|BadgeClass|..|BadgeClass| + |BaseClass(isDark)|] == (if isDark then "status-badge-dark" else "status-badge-light")
      && r[|BadgeClass| + |BaseClass(isDark)|..|r| - |status|] == StatusPrefix
      && r[|r| - |status|..] == Slug(status)
      && forall i :: 0 <= i < |r| ==> (r[i] == ' ' <==> i == |BadgeClass| - 1 || i == |BadgeClass| + |BaseClass(isDark)|)
  {
    var r := StatusClassName(status, isDark);
    var base := BaseClass(isDark);
    var slug := Slug(status);
    var a := |BadgeClass|;
    var b := a + |base|;
    var n := b + |StatusPrefix|;
    assert r == BadgeClass + base + StatusPrefix + slug;
    assert r[a..b] == base;
    assert r[b..n] == StatusPrefix;
    BadgeClassSpaces();
    BaseClassSpaces(isDark);
    StatusPrefixSpaces();
    forall i | 0 <= i < |r| ensures r[i] == ' ' <==> i == a - 1 || i == b {
      if i < a {
        assert r[i] == BadgeClass[i];
      } else if i < b {
        assert r[i] == base[i - a];
      } else if i < n {
        assert r[i] == StatusPrefix[i - b];
      } else {
        assert r[i] == slug[i - n];
      }
    }
  }

  /** The characters that separate class names in an HTML class attribute:
      tab, line feed, form feed, carriage return and space. */
  predicate IsClassSeparator(c: char)
  {
    c == ' ' || c == '\t' || c == '\n' || c as int == 12 || c == '\r'
  }

  /** The fixed segments hold no separator other than the two spaces. */
  lemma FixedSegmentsSeparators(isDark: bool)
    ensures forall i :: 0 <= i < |BadgeClass| ==> (IsClassSeparator(BadgeClass[i]) <==> i == |BadgeClass| - 1)
    ensures forall i :: 0 <= i < |BaseClass(isDark)| ==> !IsClassSeparator(BaseClass(isDark)[i])
    ensures forall i :: 0 <= i < |StatusPrefix| ==> (IsClassSeparator(StatusPrefix[i]) <==> i == 0)
  {
  }

  /** Only the spaces of a status are replaced: a tab, line feed, form feed
      or carriage return survives into the slug. */
  lemma SlugSeparators(status: string)
    ensures forall j :: 0 <= j < |status| ==>
      (IsClassSeparator(Slug(status)[j]) <==> status[j] != ' ' && IsClassSeparator(status[j]))
  {
  }

  /** A status holds no separator other than the space. */
  predicate SpacesOnly(status: string)
  {
    forall j :: 0 <= j < |status| ==> status[j] == ' ' || !IsClassSeparator(status[j])
  }

  /** The class string names exactly three classes (its only separators are
      the two fixed spaces) iff the status holds no tab, line feed, form feed
      or carriage return; such a character splits the status class in two. */
  lemma ThreeClassesIff(status: string, isDark: bool)
    ensures var r := StatusClassName(status, isDark);
      SpacesOnly(status)
      <==>
      (forall i :: 0 <= i < |r| ==> (IsClassSeparator(r[i]) <==> i == |BadgeClass| - 1 || i == |BadgeClass| + |BaseClass(isDark)|))
  {
    var r := StatusClassName(status, isDark);
    var base := BaseClass(isDark);
    var slug := Slug(status);
    var a := |BadgeClass|;
    var b := a + |base|;
    var n := b + |StatusPrefix|;
    assert r == BadgeClass + base + StatusPrefix + slug;
    FixedSegmentsSeparators(isDark);
    SlugSeparators(status);
    if SpacesOnly(status) {
      forall i | 0 <= i < |r| ensures IsClassSeparator(r[i]) <==> i == a - 1 || i == b {
        if i < a {
          assert r[i] == BadgeClass[i];
        } else if i < b {
          assert r[i] == base[i - a];
        } else if i < n {
          assert r[i] == StatusPrefix[i - b];
        } else {
          assert r[i] == slug[i - n];
        }
      }
    }
    if forall i :: 0 <= i < |r| ==> (IsClassSeparator(r[i]) <==> i == a - 1 || i == b) {
      forall j | 0 <= j < |status| ensures status[j] == ' ' || !IsClassSeparator(status[j]) {
        assert r[n + j] == slug[j];
      }
      assert SpacesOnly(status);
    }
  }

  /** The five display strings separate their words by spaces only. */
  lemma DisplayStringsSpacesOnly(s: ApplicationStore.ApplicationStatus)
    ensures SpacesOnly(ApplicationStore.Value(s))
  {
    match s
    case PendingResponse =>
    case Rejected =>
    case InterviewScheduled =>
    case TalkScheduled =>
    case OfferReceived =>
  }

  /** Every badge of the five statuses names exactly three classes. */
  lemma EnumBadgesNameThreeClasses(s: ApplicationStore.ApplicationStatus, isDark: bool)
    ensures var r := StatusClassName(ApplicationStore.Value(s), isDark);
      forall i :: 0 <= i < |r| ==> (IsClassSeparator(r[i]) <==> i == |BadgeClass| - 1 || i == |BadgeClass| + |BaseClass(isDark)|)
  {
    DisplayStringsSpacesOnly(s);
    ThreeClassesIff(ApplicationStore.Value(s), isDark);
  }

  lemma PendingResponseSlug() ensures Slug("Pending Response") == "pending-response" {}
  lemma RejectedSlug() ensures Slug("Rejected") == "rejected" {}
  lemma InterviewScheduledSlug() ensures Slug("Interview Scheduled") == "interview-scheduled" {}
  lemma TalkScheduledSlug() ensures Slug("Talk Scheduled") == "talk-scheduled" {}
  lemma OfferReceivedSlug() ensures Slug("Offer Received") == "offer-received" {}

  /** The slugs of the five statuses of the application store. */
  lemma EnumSlugs()
    ensures Slug(ApplicationStore.Value(ApplicationStore.PendingResponse)) == "pending-response"
    ensures Slug(ApplicationStore.Value(ApplicationStore.Rejected)) == "rejected"
    ensures Slug(ApplicationStore.Value(ApplicationStore.InterviewScheduled)) == "interview-scheduled"
    ensures Slug(ApplicationStore.Value(ApplicationStore.TalkScheduled)) == "talk-scheduled"
    ensures Slug(ApplicationStore.Value(ApplicationStore.OfferReceived)) == "offer-received"
  {
    PendingResponseSlug();
    RejectedSlug();
    InterviewScheduledSlug();
    TalkScheduledSlug();
    OfferReceivedSlug();
  }

  /** Different statuses get different badges under the same theme. */
  lemma BadgesDistinguishStatuses(a: ApplicationStore.ApplicationStatus, b: ApplicationStore.ApplicationStatus, isDark: bool)
    requires a != b
    ensures StatusClassName(ApplicationStore.Value(a), isDark) != StatusClassName(ApplicationStore.Value(b), isDark)
  {
    EnumSlugs();
    var ra, rb := StatusClassName(ApplicationStore.Value(a), isDark), StatusClassName(ApplicationStore.Value(b), isDark);
    var n := |BadgeClass| + |BaseClass(isDark)| + |StatusPrefix|;
    assert ra[n..] == Slug(ApplicationStore.Value(a));
    assert rb[n..] == Slug(ApplicationStore.Value(b));
  }
}
