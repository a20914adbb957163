/**
 * The crawl frontier of `WikipediaLinkExtractor` (Main.java:11-63): starting from seed pages, every
 * page is fetched in first-in-first-out order, the links of its paragraphs that point to an
 * English Wikipedia article are collected once each, written out and queued, until no page is
 * left or 1005 links are collected. Fetching is a function from a url to the link targets of
 * each paragraph of the page, or None when the fetch fails.
 */
module LinkExtractor {
  import opened Optional
  import opened Sequences

  const ArticlePrefix := "https://en.wikipedia.org/wiki/"

  /** The most links the crawler collects. */
  const Cap := 1005

  /** A paragraph is left once the page has given this many links, checked after each new link (see ProcessPage). */
  const PerPage := 10

  predicate StartsWith(s: string, prefix: string)
  {
    |prefix| <= |s| && s[..|prefix|] == prefix
  }

  predicate EndsWith(s: string, suffix: string)
  {
    |suffix| <= |s| && s[|s| - |suffix|..] == suffix
  }

  /** The characters that `.` of a Java regular expression does not match. */
  predicate IsLineTerminator(c: char)
  {
    c == '\n' || c == '\r' || c == '\U{0085}' || c == '\U{2028}' || c == '\U{2029}'
  }

  predicate NoLineTerminator(s: string)
  {
    forall k :: 0 <= k < |s| ==> !IsLineTerminator(s[k])
  }

  /** `url.matches(".*\\.(jpg|jpeg|png|gif|svg)$")`: an image suffix, and `.*` spans no line terminator. */
  predicate IsImage(url: string)
  {
    NoLineTerminator(url) &&
    (EndsWith(url, ".jpg") || EndsWith(url, ".jpeg") || EndsWith(url, ".png") ||
     EndsWith(url, ".gif") || EndsWith(url, ".svg"))
  }

  /** `url.matches(".*[0-9].*")`: a decimal digit, and no line terminator anywhere. */
  predicate HasDigit(url: string)
  {
    NoLineTerminator(url) && exists k :: 0 <= k < |url| && '0' <= url[k] <= '9'
  }

  /** `isValidWikipediaLink`. */
  predicate IsValidWikipediaLink(url: string)
  {
    StartsWith(url, ArticlePrefix) && '#' !in url && !IsImage(url) && !HasDigit(url)
  }

  /** A valid link starts with the article prefix, holds no `#`, and, unless it holds a line
   * terminator, neither ends in an image suffix nor holds a digit. */
  lemma ValidLinkShape(url: string)
    requires IsValidWikipediaLink(url)
    ensures url[..|ArticlePrefix|] == ArticlePrefix
    ensures forall k :: 0 <= k < |url| ==> url[k] != '#'
    ensures NoLineTerminator(url) ==> forall k :: 0 <= k < |url| ==> !('0' <= url[k] <= '9')
    ensures NoLineTerminator(url) ==>
      !EndsWith(url, ".jpg") && !EndsWith(url, ".jpeg") && !EndsWith(url, ".png") && !EndsWith(url, ".gif") && !EndsWith(url, ".svg")
  {
  }

  /** A title made of ASCII letters and underscores, as in `Computer_science`. */
  predicate IsPlainTitle(title: string)
  {
    forall k :: 0 <= k < |title| ==> 'a' <= title[k] <= 'z' || 'A' <= title[k] <= 'Z' || title[k] == '_'
  }

  /** No image suffix can end a string whose last `n` characters hold no dot. */
  lemma NoImageSuffix(url: string, n: nat)
    requires 5 <= n <= |url| && forall k :: |url| - n <= k < |url| ==> url[k] != '.'
    ensures !EndsWith(url, ".jpg") && !EndsWith(url, ".jpeg") && !EndsWith(url, ".png")
    ensures !EndsWith(url, ".gif") && !EndsWith(url, ".svg")
  {
    assert ".jpg"[0] == '.' && ".jpeg"[0] == '.' && ".png"[0] == '.' && ".gif"[0] == '.' && ".svg"[0] == '.';
    assert url[|url| - 4] != '.' && url[|url| - 5] != '.';
  }

  /** A character that is neither `#`, nor a digit, nor a line terminator. */
  predicate IsPlainChar(c: char)
  {
    c != '#' && !('0' <= c <= '9') && !IsLineTerminator(c)
  }

  /** The article prefix is plain and its last five characters hold no dot. */
  lemma PrefixIsPlain()
    ensures forall k :: 0 <= k < |ArticlePrefix| ==> IsPlainChar(ArticlePrefix[k])
    ensures forall k :: |ArticlePrefix| - 5 <= k < |ArticlePrefix| ==> ArticlePrefix[k] != '.'
  {
  }

  /** The characters of the article link of a plain title. */
  lemma ArticleLinkChars(title: string)
    requires IsPlainTitle(title)
    ensures forall k :: 0 <= k < |ArticlePrefix + title| ==> IsPlainChar((ArticlePrefix + title)[k])
    ensures forall k :: |ArticlePrefix + title| - 5 <= k < |ArticlePrefix + title| ==> (ArticlePrefix + title)[k] != '.'
  {
    PrefixIsPlain();
    var url := ArticlePrefix + title;
    forall k | 0 <= k < |url|
      ensures IsPlainChar(url[k]) && (|url| - 5 <= k ==> url[k] != '.')
    {
      if k < |ArticlePrefix| {
        assert url[k] == ArticlePrefix[k];
      } else {
        assert url[k] == title[k - |ArticlePrefix|];
      }
    }
  }

  /** The article link of a plain title is valid: the crawler keeps it. */
  lemma ArticleLinkIsValid(title: string)
    requires IsPlainTitle(title)
    ensures IsValidWikipediaLink(ArticlePrefix + title)
  {
    var url := ArticlePrefix + title;
    ArticleLinkChars(title);
    assert url[..|ArticlePrefix|] == ArticlePrefix;
    assert '#' !in url by {
      forall k | 0 <= k < |url| ensures url[k] != '#' { assert IsPlainChar(url[k]); }
    }
    NoImageSuffix(url, 5);
  }

  /** The link occurs in some paragraph of the page. */
  predicate OnPage(paragraphs: seq<seq<string>>, link: string)
  {
    exists p :: 0 <= p < |paragraphs| && link in paragraphs[p]
  }

  /** A link the page loops may take: valid, not collected before the page, and on the page. */
  predicate Taken(paragraphs: seq<seq<string>>, allLinks: set<string>, link: string)
  {
    IsValidWikipediaLink(link) && link !in allLinks && OnPage(paragraphs, link)
  }

  /** The new links of a page: each taken once. */
  predicate AddedLinks(paragraphs: seq<seq<string>>, allLinks: set<string>, added: seq<string>)
  {
    NoDuplicates(added) && forall x :: x in added ==> Taken(paragraphs, allLinks, x)
  }

  /** What the page loops have done so far: `added` are the new links, in order, taken from the page. */
  predicate PageState(paragraphs: seq<seq<string>>, allLinks: set<string>, written: seq<string>, queue: seq<string>,
                      allLinks': set<string>, written': seq<string>, queue': seq<string>, added: seq<string>)
  {
    written' == written + added && queue' == queue + added &&
    allLinks' == allLinks + SetOf(added) &&
    |allLinks'| == |allLinks| + |added| &&
    AddedLinks(paragraphs, allLinks, added)
  }

  // ----- The links one page gives, as a function of the page -----

  /**
   * Where the page loops stand: the links collected so far, the page's new links in the order
   * they were taken (`linksCount` is their number), and whether the paragraph at hand was left
   * by the `break`.
   */
  datatype Scan = Scan(known: set<string>, added: seq<string>, broke: bool)

  /** One link of a paragraph: a valid link not yet collected is taken, and the paragraph is left
   * once the page has given `PerPage` links or the cap is reached. */
  function LinkStep(s: Scan, link: string): Scan
  {
    if s.broke || !IsValidWikipediaLink(link) || link in s.known then s
    else
      var known := s.known + {link};
      Scan(known, s.added + [link], |s.added| + 1 >= PerPage || |known| >= Cap)
  }

  /** The inner loop, over the links of one paragraph. */
  function ParagraphScan(links: seq<string>, s: Scan): Scan
  {
    if links == [] then s else LinkStep(ParagraphScan(links[..|links| - 1], s), links[|links| - 1])
  }

  /** The outer loop, over the paragraphs: no paragraph is read once the cap is reached, and each
   * paragraph read starts with the `break` undone. */
  function PageScan(paragraphs: seq<seq<string>>, s: Scan): Scan
  {
    if paragraphs == [] then s
    else
      var before := PageScan(paragraphs[..|paragraphs| - 1], s);
      if |before.known| >= Cap then before
      else ParagraphScan(paragraphs[|paragraphs| - 1], before.(broke := false))
  }

  /** Where the loops over one page end, from the links collected before it. */
  function PageEnd(paragraphs: seq<seq<string>>, allLinks: set<string>): Scan
  {
    PageScan(paragraphs, Scan(allLinks, [], false))
  }

  lemma ParagraphScanNext(links: seq<string>, l: nat, s: Scan)
    requires l < |links|
    ensures ParagraphScan(links[..l + 1], s) == LinkStep(ParagraphScan(links[..l], s), links[l])
  {
    assert links[..l + 1][..l] == links[..l];
  }

  /** A new valid link is taken, and the paragraph is left at either limit. */
  lemma ParagraphScanTakes(links: seq<string>, l: nat, s: Scan, known: set<string>, added: seq<string>)
    requires l < |links| && ParagraphScan(links[..l], s) == Scan(known, added, false)
    requires IsValidWikipediaLink(links[l]) && links[l] !in known
    ensures ParagraphScan(links[..l + 1], s) ==
      Scan(known + {links[l]}, added + [links[l]], |added| + 1 >= PerPage || |known + {links[l]}| >= Cap)
  {
    ParagraphScanNext(links, l, s);
  }

  /** Any other link changes nothing. */
  lemma ParagraphScanSkips(links: seq<string>, l: nat, s: Scan, known: set<string>, added: seq<string>)
    requires l < |links| && ParagraphScan(links[..l], s) == Scan(known, added, false)
    requires !IsValidWikipediaLink(links[l]) || links[l] in known
    ensures ParagraphScan(links[..l + 1], s) == Scan(known, added, false)
  {
    ParagraphScanNext(links, l, s);
  }

  /** Once the paragraph is left, its remaining links change nothing. */
  lemma {:induction false} ParagraphScanStops(links: seq<string>, l: nat, s: Scan)
    requires l <= |links| && ParagraphScan(links[..l], s).broke
    ensures ParagraphScan(links, s) == ParagraphScan(links[..l], s)
    decreases |links|
  {
    if l < |links| {
      var front := links[..|links| - 1];
      assert front[..l] == links[..l];
      ParagraphScanStops(front, l, s);
    } else {
      assert links[..l] == links;
    }
  }

  lemma PageScanNext(paragraphs: seq<seq<string>>, p: nat, s: Scan)
    requires p < |paragraphs|
    ensures var before := PageScan(paragraphs[..p], s);
      PageScan(paragraphs[..p + 1], s) ==
        if |before.known| >= Cap then before else ParagraphScan(paragraphs[p], before.(broke := false))
  {
    assert paragraphs[..p + 1][..p] == paragraphs[..p];
  }

  /** A paragraph read below the cap gives the next state of the page loops. */
  lemma PageScanGives(paragraphs: seq<seq<string>>, p: nat, s: Scan, known: set<string>, added: seq<string>)
    requires p < |paragraphs| && |PageScan(paragraphs[..p], s).known| < Cap
    requires ParagraphScan(paragraphs[p], PageScan(paragraphs[..p], s).(broke := false)).known == known
    requires ParagraphScan(paragraphs[p], PageScan(paragraphs[..p], s).(broke := false)).added == added
    ensures PageScan(paragraphs[..p + 1], s).known == known && PageScan(paragraphs[..p + 1], s).added == added
  {
    PageScanNext(paragraphs, p, s);
  }

  /** Once the cap is reached, the remaining paragraphs change nothing. */
  lemma {:induction false} PageScanStops(paragraphs: seq<seq<string>>, p: nat, s: Scan)
    requires p <= |paragraphs| && |PageScan(paragraphs[..p], s).known| >= Cap
    ensures PageScan(paragraphs, s) == PageScan(paragraphs[..p], s)
    decreases |paragraphs|
  {
    if p < |paragraphs| {
      var front := paragraphs[..|paragraphs| - 1];
      assert front[..p] == paragraphs[..p];
      PageScanStops(front, p, s);
    } else {
      assert paragraphs[..p] == paragraphs;
    }
  }

  /** The `break` is only ever set by one of the two limits. */
  predicate LimitBroke(s: Scan)
  {
    s.broke ==> |s.added| >= PerPage || |s.known| >= Cap
  }

  /** What the loops only ever add to: the links collected and the links taken; a link taken is
   * one not collected before. */
  predicate Grows(s: Scan, t: Scan)
  {
    s.known <= t.known && |s.known| <= |t.known| && |s.added| <= |t.added| &&
    (forall x :: x in t.added ==> x in s.added || x !in s.known) &&
    (LimitBroke(s) ==> LimitBroke(t))
  }

  lemma {:induction false} ParagraphGrows(links: seq<string>, s: Scan)
    ensures Grows(s, ParagraphScan(links, s))
    decreases |links|
  {
    if links != [] {
      ParagraphGrows(links[..|links| - 1], s);
    }
  }

  lemma {:induction false} PageGrows(paragraphs: seq<seq<string>>, s: Scan)
    ensures Grows(s, PageScan(paragraphs, s))
    decreases |paragraphs|
  {
    if paragraphs != [] {
      var front := paragraphs[..|paragraphs| - 1];
      PageGrows(front, s);
      var before := PageScan(front, s);
      ParagraphGrows(paragraphs[|paragraphs| - 1], before.(broke := false));
    }
  }

  /** The links of all paragraphs, in reading order. */
  function Flatten(paragraphs: seq<seq<string>>): seq<string>
  {
    if paragraphs == [] then [] else Flatten(paragraphs[..|paragraphs| - 1]) + paragraphs[|paragraphs| - 1]
  }

  lemma FlattenSplit(paragraphs: seq<seq<string>>)
    requires paragraphs != []
    ensures Flatten(paragraphs) == Flatten(paragraphs[..|paragraphs| - 1]) + paragraphs[|paragraphs| - 1]
  {
  }

  /** A link is among the flattened links exactly when it is on the page. */
  lemma {:induction false} FlattenOnPage(paragraphs: seq<seq<string>>, x: string)
    ensures x in Flatten(paragraphs) <==> OnPage(paragraphs, x)
    decreases |paragraphs|
  {
    if paragraphs != [] {
      var front := paragraphs[..|paragraphs| - 1];
      FlattenOnPage(front, x);
      FlattenSplit(paragraphs);
      if OnPage(front, x) {
        var p :| 0 <= p < |front| && x in front[p];
        assert paragraphs[p] == front[p];
      }
      if OnPage(paragraphs, x) {
        var p :| 0 <= p < |paragraphs| && x in paragraphs[p];
        if p < |front| {
          assert front[p] == paragraphs[p];
        }
      }
    }
  }

  // ----- What every page gives: new valid links from the page, each once, within the cap -----

  /** The links `t` has taken, starting from the collected set `base`, are valid links of `source`
   * not in `base`, each taken once and collected, and the cap is never passed. */
  predicate Sound(base: set<string>, source: seq<string>, t: Scan)
  {
    t.known == base + SetOf(t.added) && |t.known| == |base| + |t.added| && |t.known| <= Cap &&
    NoDuplicates(t.added) &&
    forall x :: x in t.added ==> IsValidWikipediaLink(x) && x !in base && x in source
  }

  /** Unless the paragraph was left, the cap is not reached yet. */
  predicate BelowCapUnlessBroke(t: Scan)
  {
    !t.broke ==> |t.known| < Cap
  }

  lemma LinkSound(base: set<string>, source: seq<string>, t: Scan, x: string)
    requires Sound(base, source, t) && BelowCapUnlessBroke(t) && x in source
    ensures Sound(base, source, LinkStep(t, x)) && BelowCapUnlessBroke(LinkStep(t, x))
  {
    if !t.broke && IsValidWikipediaLink(x) && x !in t.known {
      SetOfAppend(t.added, [x]);
      AppendFresh(t.added, x);
    }
  }

  lemma {:induction false} ParagraphSound(base: set<string>, source: seq<string>, links: seq<string>, t: Scan)
    requires Sound(base, source, t) && BelowCapUnlessBroke(t)
    requires forall x :: x in links ==> x in source
    ensures Sound(base, source, ParagraphScan(links, t)) && BelowCapUnlessBroke(ParagraphScan(links, t))
    decreases |links|
  {
    if links != [] {
      var front := links[..|links| - 1];
      assert forall x :: x in front ==> x in links;
      ParagraphSound(base, source, front, t);
      LinkSound(base, source, ParagraphScan(front, t), links[|links| - 1]);
    }
  }

  lemma SoundWiden(base: set<string>, source: seq<string>, source': seq<string>, t: Scan)
    requires Sound(base, source, t) && forall x :: x in source ==> x in source'
    ensures Sound(base, source', t)
  {
  }

  lemma {:induction false} PageSound(paragraphs: seq<seq<string>>, base: set<string>)
    requires |base| <= Cap
    ensures Sound(base, Flatten(paragraphs), PageScan(paragraphs, Scan(base, [], false)))
    decreases |paragraphs|
  {
    var s := Scan(base, [], false);
    if paragraphs == [] {
      assert SetOf([]) == {};
    } else {
      var front := paragraphs[..|paragraphs| - 1];
      var last := paragraphs[|paragraphs| - 1];
      PageSound(front, base);
      FlattenSplit(paragraphs);
      var before := PageScan(front, s);
      SoundWiden(base, Flatten(front), Flatten(paragraphs), before);
      if |before.known| < Cap {
        ParagraphSound(base, Flatten(paragraphs), last, before.(broke := false));
      }
    }
  }

  /** The links a page gives are new valid links of the page, each once: the collected set grows
   * by exactly them and stays within the cap. */
  lemma PageEndSound(paragraphs: seq<seq<string>>, allLinks: set<string>)
    requires |allLinks| <= Cap
    ensures var e := PageEnd(paragraphs, allLinks);
      e.known == allLinks + SetOf(e.added) && |e.known| == |allLinks| + |e.added| && |e.known| <= Cap &&
      AddedLinks(paragraphs, allLinks, e.added)
  {
    PageSound(paragraphs, allLinks);
    var e := PageEnd(paragraphs, allLinks);
    forall x | x in e.added
      ensures OnPage(paragraphs, x)
    {
      FlattenOnPage(paragraphs, x);
    }
  }

  // ----- A page on which no limit is reached gives exactly its new valid links, in reading order -----

  /** The valid links of `links` not in `known`, each at its first occurrence, in reading order. */
  function NewValid(links: seq<string>, known: set<string>): seq<string>
  {
    if links == [] then []
    else
      var front := NewValid(links[..|links| - 1], known);
      var x := links[|links| - 1];
      if IsValidWikipediaLink(x) && x !in known && x !in front then front + [x] else front
  }

  lemma {:induction false} NewValidAppend(a: seq<string>, b: seq<string>, known: set<string>)
    ensures NewValid(a + b, known) == NewValid(a, known) + NewValid(b, known + SetOf(NewValid(a, known)))
    decreases |b|
  {
    if b == [] {
      assert a + b == a;
    } else {
      var front := b[..|b| - 1];
      assert (a + b)[..|a + b| - 1] == a + front;
      assert (a + b)[|a + b| - 1] == b[|b| - 1];
      NewValidAppend(a, front, known);
    }
  }

  /** Every valid link of `links` is in `known` or among the new valid links. */
  lemma {:induction false} NewValidCovers(links: seq<string>, known: set<string>, x: string)
    requires x in links && IsValidWikipediaLink(x)
    ensures x in known || x in NewValid(links, known)
    decreases |links|
  {
    var front := links[..|links| - 1];
    assert links == front + [links[|links| - 1]];
    if x in front {
      NewValidCovers(front, known, x);
    }
  }

  /** One link, when the paragraph is not left: it is taken exactly when it is a new valid link. */
  lemma NewValidStep(t: Scan, x: string, known: set<string>, added: seq<string>, links: seq<string>)
    requires t == Scan(known + SetOf(links), added + links, false) && !LinkStep(t, x).broke
    ensures var links' := if IsValidWikipediaLink(x) && x !in known && x !in links then links + [x] else links;
      LinkStep(t, x) == Scan(known + SetOf(links'), added + links', false)
  {
    if IsValidWikipediaLink(x) && x !in known && x !in links {
      SetOfAppend(links, [x]);
      assert added + links + [x] == added + (links + [x]);
    }
  }

  /** A paragraph read to its end without the `break` takes exactly its new valid links. */
  lemma {:induction false} ParagraphUnbroken(links: seq<string>, s: Scan)
    requires !ParagraphScan(links, s).broke
    ensures var newLinks := NewValid(links, s.known);
      ParagraphScan(links, s) == Scan(s.known + SetOf(newLinks), s.added + newLinks, false)
    decreases |links|
  {
    if links == [] {
      assert s.known + SetOf([]) == s.known && s.added + [] == s.added;
    } else {
      var front := links[..|links| - 1];
      ParagraphUnbroken(front, s);
      NewValidStep(ParagraphScan(front, s), links[|links| - 1], s.known, s.added, NewValid(front, s.known));
    }
  }

  /** The new valid links of one more paragraph extend those of the paragraphs before it. */
  lemma NewValidJoin(front: seq<string>, last: seq<string>, known: set<string>, added: seq<string>, before: Scan, end: Scan)
    requires before.known == known + SetOf(NewValid(front, known)) && before.added == added + NewValid(front, known)
    requires end.known == before.known + SetOf(NewValid(last, before.known))
    requires end.added == before.added + NewValid(last, before.known)
    ensures end.known == known + SetOf(NewValid(front + last, known)) && end.added == added + NewValid(front + last, known)
  {
    var newFront := NewValid(front, known);
    NewValidAppend(front, last, known);
    SetOfAppend(newFront, NewValid(last, before.known));
    assert added + newFront + NewValid(last, before.known) == added + (newFront + NewValid(last, before.known));
  }

  /** A page on which neither limit is reached gives exactly its new valid links, in the order they
   * are read. */
  lemma {:induction false} PageUnbroken(paragraphs: seq<seq<string>>, s: Scan)
    requires !s.broke
    requires |PageScan(paragraphs, s).added| < PerPage && |PageScan(paragraphs, s).known| < Cap
    ensures var newLinks := NewValid(Flatten(paragraphs), s.known);
      PageScan(paragraphs, s).known == s.known + SetOf(newLinks) && PageScan(paragraphs, s).added == s.added + newLinks
    decreases |paragraphs|
  {
    if paragraphs == [] {
      assert s.known + SetOf([]) == s.known && s.added + [] == s.added;
    } else {
      var front := paragraphs[..|paragraphs| - 1];
      var last := paragraphs[|paragraphs| - 1];
      var before := PageScan(front, s);
      var entry := before.(broke := false);
      ParagraphGrows(last, entry);
      PageUnbroken(front, s);
      ParagraphUnbroken(last, entry);
      FlattenSplit(paragraphs);
      NewValidJoin(Flatten(front), last, s.known, s.added, before, ParagraphScan(last, entry));
    }
  }

  /** On a page where no limit is reached, every valid link of the page ends up collected. */
  lemma NewValidCoversPage(paragraphs: seq<seq<string>>, allLinks: set<string>)
    ensures Covered(paragraphs, |paragraphs|, allLinks + SetOf(NewValid(Flatten(paragraphs), allLinks)))
  {
    forall q, x | 0 <= q < |paragraphs| && x in paragraphs[q] && IsValidWikipediaLink(x)
      ensures x in allLinks + SetOf(NewValid(Flatten(paragraphs), allLinks))
    {
      FlattenOnPage(paragraphs, x);
      NewValidCovers(Flatten(paragraphs), allLinks, x);
    }
  }

  // ----- Every page gives its links in reading order -----

  /** The elements of `xs` whose flag in `keep` is set, in order. */
  function Select(xs: seq<string>, keep: seq<bool>): seq<string>
    requires |keep| == |xs|
  {
    if xs == [] then []
    else Select(xs[..|xs| - 1], keep[..|keep| - 1]) + (if keep[|keep| - 1] then [xs[|xs| - 1]] else [])
  }

  /** `a` is `b` with some elements left out, the others in the same order. */
  ghost predicate Subsequence(a: seq<string>, b: seq<string>)
  {
    exists keep: seq<bool> :: |keep| == |b| && Select(b, keep) == a
  }

  lemma {:induction false} SelectAppend(a: seq<string>, b: seq<string>, ka: seq<bool>, kb: seq<bool>)
    requires |ka| == |a| && |kb| == |b|
    ensures Select(a + b, ka + kb) == Select(a, ka) + Select(b, kb)
    decreases |b|
  {
    if b == [] {
      assert a + b == a && ka + kb == ka;
    } else {
      var front := b[..|b| - 1];
      var keepFront := kb[..|kb| - 1];
      assert (a + b)[..|a + b| - 1] == a + front;
      assert (ka + kb)[..|ka + kb| - 1] == ka + keepFront;
      SelectAppend(a, front, ka, keepFront);
    }
  }

  lemma {:induction false} SelectNone(xs: seq<string>)
    ensures Select(xs, seq(|xs|, _ => false)) == []
    decreases |xs|
  {
    if xs != [] {
      assert seq(|xs|, _ => false)[..|xs| - 1] == seq(|xs| - 1, _ => false);
      SelectNone(xs[..|xs| - 1]);
    }
  }

  /** Which links of a paragraph the inner loop takes. */
  function ParagraphKeep(links: seq<string>, s: Scan): (keep: seq<bool>)
    ensures |keep| == |links|
  {
    if links == [] then []
    else
      var before := ParagraphScan(links[..|links| - 1], s);
      ParagraphKeep(links[..|links| - 1], s) + [|LinkStep(before, links[|links| - 1]).added| > |before.added|]
  }

  /** Which links of a page the loops take: none of a paragraph skipped at the cap. */
  function PageKeep(paragraphs: seq<seq<string>>, s: Scan): (keep: seq<bool>)
    ensures |keep| == |Flatten(paragraphs)|
  {
    if paragraphs == [] then []
    else
      var front := paragraphs[..|paragraphs| - 1];
      var last := paragraphs[|paragraphs| - 1];
      var before := PageScan(front, s);
      PageKeep(front, s) + (if |before.known| >= Cap then seq(|last|, _ => false) else ParagraphKeep(last, before.(broke := false)))
  }

  /** The links a paragraph gives are taken in the order they are read. */
  lemma {:induction false} ParagraphInOrder(links: seq<string>, s: Scan)
    ensures ParagraphScan(links, s).added == s.added + Select(links, ParagraphKeep(links, s))
    decreases |links|
  {
    if links != [] {
      var front := links[..|links| - 1];
      var keep := ParagraphKeep(links, s);
      ParagraphInOrder(front, s);
      assert keep[..|keep| - 1] == ParagraphKeep(front, s);
    }
  }

  /** Taking the links of one more paragraph, in order, after those of the paragraphs before. */
  lemma SelectJoin(start: seq<string>, xs: seq<string>, ys: seq<string>, kx: seq<bool>, ky: seq<bool>,
                   mid: seq<string>, end: seq<string>)
    requires |kx| == |xs| && |ky| == |ys|
    requires mid == start + Select(xs, kx) && end == mid + Select(ys, ky)
    ensures end == start + Select(xs + ys, kx + ky)
  {
    SelectAppend(xs, ys, kx, ky);
    ConcatAssociates(start, Select(xs, kx), Select(ys, ky));
  }

  /** The links a page gives are taken in the order they are read. */
  lemma {:induction false} PageInOrder(paragraphs: seq<seq<string>>, s: Scan)
    ensures PageScan(paragraphs, s).added == s.added + Select(Flatten(paragraphs), PageKeep(paragraphs, s))
    decreases |paragraphs|
  {
    if paragraphs != [] {
      var front := paragraphs[..|paragraphs| - 1];
      var last := paragraphs[|paragraphs| - 1];
      var before := PageScan(front, s);
      PageInOrder(front, s);
      var keepLast: seq<bool>;
      if |before.known| >= Cap {
        keepLast := seq(|last|, _ => false);
        SelectNone(last);
      } else {
        keepLast := ParagraphKeep(last, before.(broke := false));
        ParagraphInOrder(last, before.(broke := false));
      }
      FlattenSplit(paragraphs);
      SelectJoin(s.added, Flatten(front), last, PageKeep(front, s), keepLast, before.added, PageScan(paragraphs, s).added);
    }
  }

  // ----- The loops -----

  /**
   * The inner loop of extractLinks, over the links of one paragraph: every valid link not yet
   * collected is collected, written and queued, and the paragraph is left once the page has given
   * `PerPage` links or the cap is reached. `writtenBefore` and `queueBefore` are the output and the
   * queue before the page, `added` the links the page gave so far.
   */
  method ProcessParagraph(links: seq<string>, allLinks: set<string>, written: seq<string>, queue: seq<string>,
                          ghost added: seq<string>, linksCount: nat, ghost writtenBefore: seq<string>, ghost queueBefore: seq<string>)
    returns (allLinks': set<string>, written': seq<string>, queue': seq<string>, ghost added': seq<string>, linksCount': nat)
    requires linksCount == |added| && written == writtenBefore + added && queue == queueBefore + added
    ensures allLinks' == ParagraphScan(links, Scan(allLinks, added, false)).known
    ensures added' == ParagraphScan(links, Scan(allLinks, added, false)).added
    ensures written' == writtenBefore + added' && queue' == queueBefore + added' && linksCount' == |added'|
  {
    allLinks', written', queue', added', linksCount' := allLinks, written, queue, added, linksCount;
    ghost var entry := Scan(allLinks, added, false);
    var l := 0;
    while l < |links|
      invariant 0 <= l <= |links|
      invariant linksCount' == |added'|
      invariant ParagraphScan(links[..l], entry) == Scan(allLinks', added', false)
      invariant written' == writtenBefore + added' && queue' == queueBefore + added'
    {
      var linkHref := links[l];
      if IsValidWikipediaLink(linkHref) && linkHref !in allLinks' {
        ParagraphScanTakes(links, l, entry, allLinks', added');
        ConcatAssociates(writtenBefore, added', [linkHref]);
        ConcatAssociates(queueBefore, added', [linkHref]);
        allLinks' := allLinks' + {linkHref};
        written' := written' + [linkHref];
        queue' := queue' + [linkHref];
        added' := added' + [linkHref];
        linksCount' := linksCount' + 1;
        if linksCount' >= PerPage || |allLinks'| >= Cap {
          ParagraphScanStops(links, l + 1, entry);
          break;
        }
      } else {
        ParagraphScanSkips(links, l, entry, allLinks', added');
      }
      l := l + 1;
    }
    if l == |links| {
      assert links[..l] == links;
    }
  }

  /**
   * The paragraph loops of extractLinks for one fetched page: the page gives exactly the links of
   * `PageEnd`. They are new valid links of the page, each once, written and queued in the order they
   * are read; each paragraph stops giving links once the page has given `PerPage` (the check only
   * leaves the paragraph at hand, so each later paragraph can still give one), and everything
   * stops at the cap. Unless one of those two limits was reached, the page gives exactly its new
   * valid links and every valid link of the page ends up collected.
   */
  method ProcessPage(paragraphs: seq<seq<string>>, allLinks: set<string>, written: seq<string>, queue: seq<string>)
    returns (allLinks': set<string>, written': seq<string>, queue': seq<string>, ghost added: seq<string>)
    requires |allLinks| <= Cap
    ensures allLinks' == PageEnd(paragraphs, allLinks).known && added == PageEnd(paragraphs, allLinks).added
    ensures PageState(paragraphs, allLinks, written, queue, allLinks', written', queue', added)
    ensures |allLinks'| <= Cap
    ensures Subsequence(added, Flatten(paragraphs))
    ensures |added| < PerPage && |allLinks'| < Cap ==>
      added == NewValid(Flatten(paragraphs), allLinks) && Covered(paragraphs, |paragraphs|, allLinks')
  {
    allLinks', written', queue', added := allLinks, written, queue, [];
    ghost var start := Scan(allLinks, [], false);
    var linksCount := 0;
    var p := 0;
    while p < |paragraphs|
      invariant 0 <= p <= |paragraphs|
      invariant linksCount == |added|
      invariant written' == written + added && queue' == queue + added
      invariant PageScan(paragraphs[..p], start).known == allLinks' && PageScan(paragraphs[..p], start).added == added
    {
      if |allLinks'| >= Cap {
        PageScanStops(paragraphs, p, start);
        break;
      }
      allLinks', written', queue', added, linksCount :=
        ProcessParagraph(paragraphs[p], allLinks', written', queue', added, linksCount, written, queue);
      PageScanGives(paragraphs, p, start, allLinks', added);
      p := p + 1;
    }
    if p == |paragraphs| {
      assert paragraphs[..p] == paragraphs;
    }
    PageEndSound(paragraphs, allLinks);
    PageInOrder(paragraphs, start);
    assert Select(Flatten(paragraphs), PageKeep(paragraphs, start)) == added;
    if |added| < PerPage && |allLinks'| < Cap {
      PageUnbroken(paragraphs, start);
      NewValidCoversPage(paragraphs, allLinks);
    }
  }

  /** Every valid link of the first `p` paragraphs is collected. */
  predicate Covered(paragraphs: seq<seq<string>>, p: nat, allLinks: set<string>)
    requires p <= |paragraphs|
  {
    forall q, x :: 0 <= q < p && x in paragraphs[q] && IsValidWikipediaLink(x) ==> x in allLinks
  }

  /** Each iteration of the crawl collects a link or shortens the queue. */
  lemma CrawlProgress(before: nat, after: nat, queueBefore: nat, queueAfter: nat)
    requires before <= after <= Cap
    requires before == after ==> queueAfter < queueBefore
    ensures Cap - after < Cap - before || (Cap - after == Cap - before && queueAfter < queueBefore)
  {
  }

  /** Every link found so far comes from a page of `processed` whose fetch succeeded. */
  ghost predicate FoundOnFetched(written: seq<string>, processed: seq<string>, fetch: string -> Option<seq<seq<string>>>)
  {
    forall x :: x in written ==> exists k :: 0 <= k < |processed| && fetch(processed[k]).Some? && OnPage(fetch(processed[k]).value, x)
  }

  /** The state of the crawl between two pages. */
  ghost predicate CrawlState(initialUrls: seq<string>, fetch: string -> Option<seq<seq<string>>>, allLinks: set<string>,
                             written: seq<string>, urlsToProcess: seq<string>, processed: seq<string>)
  {
    processed + urlsToProcess == initialUrls + written &&
    allLinks == SetOf(written) &&
    |allLinks| == |written| <= Cap &&
    NoDuplicates(written) &&
    (forall x :: x in written ==> IsValidWikipediaLink(x)) &&
    FoundOnFetched(written, processed, fetch)
  }

  /** Processing one more page keeps the pages the links were found on. */
  lemma FoundOnMorePages(written: seq<string>, processed: seq<string>, url: string, fetch: string -> Option<seq<seq<string>>>)
    requires FoundOnFetched(written, processed, fetch)
    ensures FoundOnFetched(written, processed + [url], fetch)
  {
    forall x | x in written
      ensures exists k :: 0 <= k < |processed + [url]| && fetch((processed + [url])[k]).Some? &&
                          OnPage(fetch((processed + [url])[k]).value, x)
    {
      var k :| 0 <= k < |processed| && fetch(processed[k]).Some? && OnPage(fetch(processed[k]).value, x);
      assert (processed + [url])[k] == processed[k];
    }
  }

  /** The links of a fetched page were found on it. */
  lemma FoundOnNewPage(written: seq<string>, added: seq<string>, processed: seq<string>, url: string,
                       fetch: string -> Option<seq<seq<string>>>)
    requires FoundOnFetched(written, processed + [url], fetch)
    requires fetch(url).Some? && forall x :: x in added ==> OnPage(fetch(url).value, x)
    ensures FoundOnFetched(written + added, processed + [url], fetch)
  {
    var processed' := processed + [url];
    forall x | x in written + added
      ensures exists k :: 0 <= k < |processed'| && fetch(processed'[k]).Some? && OnPage(fetch(processed'[k]).value, x)
    {
      if x !in written {
        assert processed'[|processed|] == url;
      }
    }
  }

  /** Polling a page that fails to fetch only moves it from the queue to the processed pages. */
  lemma SkipPage(initialUrls: seq<string>, fetch: string -> Option<seq<seq<string>>>, allLinks: set<string>,
                 written: seq<string>, urlsToProcess: seq<string>, processed: seq<string>)
    requires CrawlState(initialUrls, fetch, allLinks, written, urlsToProcess, processed) && urlsToProcess != []
    ensures CrawlState(initialUrls, fetch, allLinks, written, urlsToProcess[1..], processed + [urlsToProcess[0]])
  {
    assert processed + [urlsToProcess[0]] + urlsToProcess[1..] == processed + urlsToProcess;
    FoundOnMorePages(written, processed, urlsToProcess[0], fetch);
  }

  /** The first-in-first-out order: the polled page joins the processed ones, its links join the queue. */
  lemma QueueStep(initialUrls: seq<string>, written: seq<string>, urlsToProcess: seq<string>, processed: seq<string>,
                  added: seq<string>)
    requires processed + urlsToProcess == initialUrls + written && urlsToProcess != []
    ensures processed + [urlsToProcess[0]] + (urlsToProcess[1..] + added) == initialUrls + (written + added)
  {
    calc {
      processed + [urlsToProcess[0]] + (urlsToProcess[1..] + added);
      (processed + ([urlsToProcess[0]] + urlsToProcess[1..])) + added;
      { assert [urlsToProcess[0]] + urlsToProcess[1..] == urlsToProcess; }
      (initialUrls + written) + added;
    }
  }

  /** Polling a page that fetches and taking its new links. */
  lemma VisitPage(initialUrls: seq<string>, fetch: string -> Option<seq<seq<string>>>, allLinks: set<string>,
                  written: seq<string>, urlsToProcess: seq<string>, processed: seq<string>,
                  allLinks': set<string>, written': seq<string>, queue': seq<string>, added: seq<string>)
    requires CrawlState(initialUrls, fetch, allLinks, written, urlsToProcess, processed) && urlsToProcess != []
    requires fetch(urlsToProcess[0]).Some?
    requires PageState(fetch(urlsToProcess[0]).value, allLinks, written, urlsToProcess[1..], allLinks', written', queue', added)
    requires |allLinks'| <= Cap
    ensures CrawlState(initialUrls, fetch, allLinks', written', queue', processed + [urlsToProcess[0]])
  {
    var url := urlsToProcess[0];
    QueueStep(initialUrls, written, urlsToProcess, processed, added);
    assert SetOf(written') == SetOf(written) + SetOf(added);
    assert forall x :: x in added ==> Taken(fetch(url).value, allLinks, x);
    NoDuplicatesAppend(written, added);
    FoundOnMorePages(written, processed, url, fetch);
    FoundOnNewPage(written, added, processed, url, fetch);
  }

  /** A page fetched with fewer than `PerPage` new links, that left the crawl below the cap, has
   * all its valid links collected. `gave` is the number of links each processed page gave. */
  ghost predicate PagesComplete(processed: seq<string>, gave: seq<int>, fetch: string -> Option<seq<seq<string>>>,
                                allLinks: set<string>)
  {
    |gave| == |processed| &&
    forall k :: 0 <= k < |processed| && fetch(processed[k]).Some? ==>
      gave[k] >= PerPage || (k == |processed| - 1 && |allLinks| >= Cap) ||
      Covered(fetch(processed[k]).value, |fetch(processed[k]).value|, allLinks)
  }

  lemma CoveredGrows(paragraphs: seq<seq<string>>, allLinks: set<string>, allLinks': set<string>)
    requires allLinks <= allLinks' && Covered(paragraphs, |paragraphs|, allLinks)
    ensures Covered(paragraphs, |paragraphs|, allLinks')
  {
  }

  /** A page fetched and processed in the crawl keeps the earlier pages complete and adds itself. */
  lemma CompleteStep(processed: seq<string>, gave: seq<int>, fetch: string -> Option<seq<seq<string>>>,
                     allLinks: set<string>, allLinks': set<string>, url: string, n: int)
    requires PagesComplete(processed, gave, fetch, allLinks) && |allLinks| < Cap && allLinks <= allLinks'
    requires fetch(url).Some? ==> n < PerPage && |allLinks'| < Cap ==>
      Covered(fetch(url).value, |fetch(url).value|, allLinks')
    ensures PagesComplete(processed + [url], gave + [n], fetch, allLinks')
  {
    var processed', gave' := processed + [url], gave + [n];
    forall k | 0 <= k < |processed'| && fetch(processed'[k]).Some?
      ensures gave'[k] >= PerPage || (k == |processed'| - 1 && |allLinks'| >= Cap) ||
        Covered(fetch(processed'[k]).value, |fetch(processed'[k]).value|, allLinks')
    {
      if k < |processed| {
        assert processed'[k] == processed[k] && gave'[k] == gave[k];
        if gave[k] < PerPage {
          CoveredGrows(fetch(processed[k]).value, allLinks, allLinks');
        }
      }
    }
  }

  /** The links the crawl writes from the state where `queue` is still to be polled and `allLinks`
   * are collected: each page that fetches gives the links of `PageEnd`, which join the end of the
   * queue; a page that fails gives none. */
  function CrawlRun(queue: seq<string>, allLinks: set<string>, fetch: string -> Option<seq<seq<string>>>): seq<string>
    requires |allLinks| <= Cap
    decreases if |allLinks| < Cap then Cap - |allLinks| else 0, |queue|
  {
    if queue == [] || |allLinks| >= Cap then []
    else
      match fetch(queue[0])
      case None => CrawlRun(queue[1..], allLinks, fetch)
      case Some(page) =>
        PageEndSound(page, allLinks);
        var e := PageEnd(page, allLinks);
        e.added + CrawlRun(queue[1..] + e.added, e.known, fetch)
  }

  /** The crawl's output is the links of the first page polled, then the rest of the crawl. */
  lemma CrawlRunStep(written: seq<string>, queue: seq<string>, allLinks: set<string>, fetch: string -> Option<seq<seq<string>>>,
                     written': seq<string>, queue': seq<string>, allLinks': set<string>)
    requires |allLinks| < Cap && queue != [] && |allLinks'| <= Cap
    requires fetch(queue[0]).None? ==> written' == written && queue' == queue[1..] && allLinks' == allLinks
    requires fetch(queue[0]).Some? ==>
      var e := PageEnd(fetch(queue[0]).value, allLinks);
      written' == written + e.added && queue' == queue[1..] + e.added && allLinks' == e.known
    ensures written' + CrawlRun(queue', allLinks', fetch) == written + CrawlRun(queue, allLinks, fetch)
  {
    if fetch(queue[0]).Some? {
      var e := PageEnd(fetch(queue[0]).value, allLinks);
      ConcatAssociates(written, e.added, CrawlRun(queue', allLinks', fetch));
    }
  }

  /**
   * `extractLinks`: the output lines are exactly `CrawlRun` from the seeds, so each page's links
   * come in the order `ProcessPage` takes them; they are without repetition, all valid, never more
   * than the cap, each found on a page whose fetch succeeded; the pages were processed first in,
   * first out, seeds first, and the crawl stopped only when the queue ran dry or the cap was
   * reached; a page that gave fewer than `PerPage` links without reaching the cap has every valid
   * link written.
   */
  method ExtractLinks(initialUrls: seq<string>, fetch: string -> Option<seq<seq<string>>>)
    returns (written: seq<string>, ghost processed: seq<string>, ghost gave: seq<int>)
    ensures written == CrawlRun(initialUrls, {}, fetch)
    ensures |written| <= Cap && NoDuplicates(written)
    ensures forall x :: x in written ==> IsValidWikipediaLink(x)
    ensures FoundOnFetched(written, processed, fetch)
    ensures |processed| <= |initialUrls + written| && processed == (initialUrls + written)[..|processed|]
    ensures |processed| == |initialUrls + written| || |written| == Cap
    ensures PagesComplete(processed, gave, fetch, SetOf(written))
  {
    var allLinks: set<string> := {};
    var urlsToProcess := initialUrls;
    written := [];
    processed, gave := [], [];
    while urlsToProcess != [] && |allLinks| < Cap
      invariant CrawlState(initialUrls, fetch, allLinks, written, urlsToProcess, processed)
      invariant written + CrawlRun(urlsToProcess, allLinks, fetch) == CrawlRun(initialUrls, {}, fetch)
      invariant PagesComplete(processed, gave, fetch, allLinks)
      decreases Cap - |allLinks|, |urlsToProcess|
    {
      ghost var linksBefore, queueBefore := |allLinks|, |urlsToProcess|;
      var currentUrl := urlsToProcess[0];
      var page := fetch(currentUrl);
      if page.Some? {
        ghost var added;
        var allLinks', written', queue';
        allLinks', written', queue', added := ProcessPage(page.value, allLinks, written, urlsToProcess[1..]);
        VisitPage(initialUrls, fetch, allLinks, written, urlsToProcess, processed, allLinks', written', queue', added);
        CrawlRunStep(written, urlsToProcess, allLinks, fetch, written', queue', allLinks');
        CompleteStep(processed, gave, fetch, allLinks, allLinks', currentUrl, |added|);
        allLinks, written, urlsToProcess := allLinks', written', queue';
        gave := gave + [|added|];
      } else {
        SkipPage(initialUrls, fetch, allLinks, written, urlsToProcess, processed);
        CrawlRunStep(written, urlsToProcess, allLinks, fetch, written, urlsToProcess[1..], allLinks);
        CompleteStep(processed, gave, fetch, allLinks, allLinks, currentUrl, 0);
        urlsToProcess := urlsToProcess[1..];
        gave := gave + [0];
      }
      processed := processed + [currentUrl];
      CrawlProgress(linksBefore, |allLinks|, queueBefore, |urlsToProcess|);
    }
    assert processed == (initialUrls + written)[..|processed|];
    assert written + [] == written;
  }
}
