/** The catalog request URLs the page builds: the start-up URL from the persisted search
    term and genre, and the URLs the search box and the genre filter fetch. The page
    glues strings together and never percent-encodes; `ParseUrl` is what the catalog
    receives of such a URL, used to state what each built URL asks for. */
module CatalogUrl {
  import opened Js

  /** The catalog endpoint the page starts from. */
  const Endpoint: string := "https://gutendex.com/books/"

  /** One query parameter `key=value`. */
  datatype Param = Param(key: string, value: string)

  function Encode(p: Param): (text: string) {
    p.key + "=" + p.value
  }

  /** Parameters joined by `&`, as the page writes them: nothing is encoded. */
  function QueryString(ps: seq<Param>): (query: string)
    requires ps != []
  {
    if |ps| == 1 then Encode(ps[0]) else Encode(ps[0]) + "&" + QueryString(ps[1..])
  }

  /** `path?k1=v1&k2=v2…`, or `path` alone when there are no parameters. */
  function WithQuery(path: string, ps: seq<Param>): (url: string) {
    if ps == [] then path else path + "?" + QueryString(ps)
  }

  /** The parameters the persisted values ask for: `search` first, then `topic`,
      each only when its stored value is truthy. */
  function StoredParams(searchTerm: Option<string>, selectedGenre: Option<string>): (ps: seq<Param>) {
    (if Truthy(searchTerm) then [Param("search", searchTerm.value)] else [])
    + (if Truthy(selectedGenre) then [Param("topic", selectedGenre.value)] else [])
  }

  /** Start-up composition of `baseUrl` from `localStorage.getItem('searchTerm')` and
      `localStorage.getItem('selectedGenre')`: `?search=` is added first, then `topic=`
      behind `&` when a search term was added and behind `?` otherwise. */
  method ComposeBaseUrl(endpoint: string, searchTerm: Option<string>, selectedGenre: Option<string>)
    returns (baseUrl: string)
    ensures baseUrl == WithQuery(endpoint, StoredParams(searchTerm, selectedGenre))
    ensures !Truthy(searchTerm) && !Truthy(selectedGenre) ==> baseUrl == endpoint
    ensures Truthy(searchTerm) && !Truthy(selectedGenre) ==>
              baseUrl == endpoint + "?search=" + searchTerm.value
    ensures !Truthy(searchTerm) && Truthy(selectedGenre) ==>
              baseUrl == endpoint + "?topic=" + selectedGenre.value
    ensures Truthy(searchTerm) && Truthy(selectedGenre) ==>
              baseUrl == endpoint + "?search=" + searchTerm.value + "&topic=" + selectedGenre.value
  {
    baseUrl := endpoint;
    if Truthy(searchTerm) {
      baseUrl := baseUrl + "?search=" + searchTerm.value;
    }
    if Truthy(selectedGenre) {
      baseUrl := baseUrl + (if Truthy(searchTerm) then "&" else "?") + "topic=" + selectedGenre.value;
    }
    StoredQueryCases(endpoint, searchTerm, selectedGenre);
  }

  /** The query of the stored parameters, case by case. */
  lemma StoredQueryCases(endpoint: string, searchTerm: Option<string>, selectedGenre: Option<string>)
    ensures var url := WithQuery(endpoint, StoredParams(searchTerm, selectedGenre));
      && (!Truthy(searchTerm) && !Truthy(selectedGenre) ==> url == endpoint)
      && (Truthy(searchTerm) && !Truthy(selectedGenre) ==>
            url == endpoint + "?search=" + searchTerm.value)
      && (!Truthy(searchTerm) && Truthy(selectedGenre) ==>
            url == endpoint + "?topic=" + selectedGenre.value)
      && (Truthy(searchTerm) && Truthy(selectedGenre) ==>
            url == endpoint + "?search=" + searchTerm.value + "&topic=" + selectedGenre.value)
  {
    var ps := StoredParams(searchTerm, selectedGenre);
    if Truthy(searchTerm) && Truthy(selectedGenre) {
      assert ps == [Param("search", searchTerm.value), Param("topic", selectedGenre.value)];
      assert ps[1..] == [Param("topic", selectedGenre.value)];
      assert QueryString(ps) == Encode(ps[0]) + "&" + Encode(ps[1]);
    } else if Truthy(searchTerm) {
      assert ps == [Param("search", searchTerm.value)];
    } else if Truthy(selectedGenre) {
      assert ps == [Param("topic", selectedGenre.value)];
    }
  }


  /** `String.prototype.toLowerCase` on one character, for the ASCII letters. */
  function LowerChar(c: char): (lower: char) {
    if 'A' <= c <= 'Z' then (c as int + 32) as char else c
  }

  /** `toLowerCase`: every upper-case letter becomes its lower-case letter, no upper-case
      letter is left, and every other character stays where it was. */
  function ToLower(s: string): (lower: string)
    ensures |lower| == |s|
    ensures forall i :: 0 <= i < |s| && 'A' <= s[i] <= 'Z' ==> lower[i] == (s[i] as int + 32) as char
    ensures forall i :: 0 <= i < |lower| ==> !('A' <= lower[i] <= 'Z')
    ensures forall i :: 0 <= i < |s| && !('A' <= s[i] <= 'Z') ==> lower[i] == s[i]
  {
    seq(|s|, i requires 0 <= i < |s| => LowerChar(s[i]))
  }

  /** Lower-casing neither adds nor removes a character that is not a letter. */
  lemma ToLowerKeeps(s: string, c: char)
    requires !('A' <= c <= 'Z') && !('a' <= c <= 'z')
    ensures c in ToLower(s) <==> c in s
  {
    var t := ToLower(s);
    if c in t {
      var i :| 0 <= i < |t| && t[i] == c;
      assert s[i] == c;
    }
    if c in s {
      var i :| 0 <= i < |s| && s[i] == c;
      assert t[i] == c;
    }
  }

  /** The template both input handlers use: `${baseUrl}?key=value`. Whatever `baseUrl`
      holds is kept in front, a `?` always follows it, and `key=value` ends the URL. */
  function AppendQuery(baseUrl: string, key: string, value: string): (url: string)
    ensures |url| == |baseUrl| + 2 + |key| + |value|
    ensures url[..|baseUrl|] == baseUrl && url[|baseUrl|] == '?'
    ensures url[|baseUrl| + 1..] == key + "=" + value
  {
    baseUrl + "?" + key + "=" + value
  }

  /** The URL the debounced search callback fetches for the typed `input`: `baseUrl`
      itself exactly when the input is empty, and otherwise `baseUrl?search=` the
      lower-cased input. */
  function SearchFetchUrl(baseUrl: string, input: string): (url: string)
    ensures url == baseUrl <==> input == ""
    ensures input != "" ==> url == AppendQuery(baseUrl, "search", ToLower(input))
  {
    var term := ToLower(input);
    if term != "" then AppendQuery(baseUrl, "search", term) else baseUrl
  }

  /** The URL the genre filter fetches: `baseUrl?topic=` a non-empty choice, and None (no
      fetch) for the empty choice. */
  function GenreFetchUrl(baseUrl: string, selected: string): (url: Option<string>)
    ensures url.Some? <==> selected != ""
    ensures url.Some? ==> url.value == AppendQuery(baseUrl, "topic", selected)
  {
    if selected != "" then Some(AppendQuery(baseUrl, "topic", selected)) else None
  }

  // ---------------------------------------------------------------------------
  // What the catalog receives

  /** A character the URL parser cuts from either end of a URL: a C0 control or a space. */
  predicate Blank(c: char) {
    c <= ' '
  }

  /** Without tab, line feed or carriage return, which the URL parser removes wherever
      they stand. */
  predicate Unbroken(s: string) {
    '\t' !in s && '\n' !in s && '\r' !in s
  }

  predicate NoTrailingBlank(s: string) {
    s == [] || !Blank(s[|s| - 1])
  }

  /** A URL that the parser's clean-up leaves as it is. */
  predicate Untrimmed(url: string) {
    url != [] && !Blank(url[0]) && !Blank(url[|url| - 1]) && Unbroken(url)
  }

  /** `s` without its leading blanks; `TrimStartCutsBlanks` states that only blanks are cut. */
  function TrimStart(s: string): (t: string)
    ensures |t| <= |s| && t == s[|s| - |t|..]
    ensures t == [] || !Blank(t[0])
    ensures s == [] || !Blank(s[0]) ==> t == s
    decreases |s|
  {
    if s != [] && Blank(s[0]) then TrimStart(s[1..]) else s
  }

  /** Everything cut from the front is a blank. */
  lemma {:induction false} TrimStartCutsBlanks(s: string)
    ensures forall i :: 0 <= i < |s| - |TrimStart(s)| ==> Blank(s[i])
    decreases |s|
  {
    if s != [] && Blank(s[0]) {
      TrimStartCutsBlanks(s[1..]);
      assert forall i :: 1 <= i < |s| - |TrimStart(s)| ==> s[i] == s[1..][i - 1];
    }
  }

  /** `s` without its trailing blanks; `TrimEndCutsBlanks` states that only blanks are cut. */
  function TrimEnd(s: string): (t: string)
    ensures t <= s && NoTrailingBlank(t)
    ensures NoTrailingBlank(s) ==> t == s
    decreases |s|
  {
    if s != [] && Blank(s[|s| - 1]) then TrimEnd(s[..|s| - 1]) else s
  }

  /** Everything cut from the end is a blank. */
  lemma {:induction false} TrimEndCutsBlanks(s: string)
    ensures forall i :: |TrimEnd(s)| <= i < |s| ==> Blank(s[i])
    decreases |s|
  {
    if s != [] && Blank(s[|s| - 1]) {
      TrimEndCutsBlanks(s[..|s| - 1]);
      assert forall i :: |TrimEnd(s)| <= i < |s| - 1 ==> s[i] == s[..|s| - 1][i];
    }
  }

  predicate TabOrLineBreak(c: char) {
    c == '\t' || c == '\n' || c == '\r'
  }

  /** `s` with every tab, line feed and carriage return removed; what is left is stated by
      `RemoveTabsAndNewlinesCleans`, `RemoveTabsAndNewlinesKeeps` and
      `RemoveTabsAndNewlinesAppend`. */
  function RemoveTabsAndNewlines(s: string): (kept: string)
    decreases |s|
  {
    if s == [] then []
    else (if TabOrLineBreak(s[0]) then [] else [s[0]]) + RemoveTabsAndNewlines(s[1..])
  }

  /** No tab or line break is left, and a string without them is kept as it is. */
  lemma {:induction false} RemoveTabsAndNewlinesCleans(s: string)
    ensures Unbroken(RemoveTabsAndNewlines(s)) && |RemoveTabsAndNewlines(s)| <= |s|
    ensures Unbroken(s) ==> RemoveTabsAndNewlines(s) == s
    decreases |s|
  {
    if s != [] {
      RemoveTabsAndNewlinesCleans(s[1..]);
      assert s == [s[0]] + s[1..];
    }
  }

  /** Every character other than a tab or line break is kept as often as it occurs. */
  lemma {:induction false} RemoveTabsAndNewlinesKeeps(s: string)
    ensures forall c :: !TabOrLineBreak(c) ==>
              multiset(RemoveTabsAndNewlines(s))[c] == multiset(s)[c]
    decreases |s|
  {
    if s != [] {
      RemoveTabsAndNewlinesKeeps(s[1..]);
      assert s == [s[0]] + s[1..];
    }
  }

  /** Removing tabs and line breaks works piece by piece, so the kept characters stay in
      their order. */
  lemma {:induction false} RemoveTabsAndNewlinesAppend(a: string, b: string)
    ensures RemoveTabsAndNewlines(a + b) == RemoveTabsAndNewlines(a) + RemoveTabsAndNewlines(b)
    decreases |a|
  {
    if a == [] {
      assert a + b == b;
    } else {
      RemoveTabsAndNewlinesAppend(a[1..], b);
      assert (a + b)[0] == a[0];
      assert (a + b)[1..] == a[1..] + b;
    }
  }

  /** The URL parser's clean-up before it reads anything: blanks at either end are cut,
      then every tab and line break is removed (`SanitizeCutsOnlyBlanksAndBreaks`). A URL
      that is already clean is kept. */
  function Sanitize(url: string): (clean: string)
    ensures Unbroken(clean) && |clean| <= |url|
    ensures Untrimmed(url) ==> clean == url
  {
    RemoveTabsAndNewlinesCleans(TrimEnd(TrimStart(url)));
    RemoveTabsAndNewlines(TrimEnd(TrimStart(url)))
  }

  /** The clean-up keeps exactly the span between a run of blanks in front and a run of
      blanks at the end, which starts and ends with a character that is not a blank, and
      removes the tabs and line breaks in it. */
  lemma SanitizeCutsOnlyBlanksAndBreaks(url: string)
    ensures exists i, j :: 0 <= i <= j <= |url| &&
              (forall k :: 0 <= k < i ==> Blank(url[k])) &&
              (forall k :: j <= k < |url| ==> Blank(url[k])) &&
              (i < j ==> !Blank(url[i]) && !Blank(url[j - 1])) &&
              Sanitize(url) == RemoveTabsAndNewlines(url[i..j])
  {
    var front := TrimStart(url);
    var middle := TrimEnd(front);
    var i := |url| - |front|;
    var j := i + |middle|;
    TrimmedFront(url, front, i);
    TrimmedBack(url, front, middle, i, j);
    TrimmedSpanEnds(url, front, middle, i, j);
  }

  /** Trimming the front cuts the `i` blanks before the kept suffix. */
  lemma TrimmedFront(url: string, front: string, i: int)
    requires front == TrimStart(url) && i == |url| - |front|
    ensures 0 <= i <= |url| && front == url[i..]
    ensures forall k :: 0 <= k < i ==> Blank(url[k])
  {
    TrimStartCutsBlanks(url);
  }

  /** Trimming the end of that suffix keeps `url[i..j]` and cuts only blanks after it. */
  lemma TrimmedBack(url: string, front: string, middle: string, i: int, j: int)
    requires 0 <= i <= |url| && front == url[i..]
    requires middle == TrimEnd(front) && j == i + |middle|
    ensures i <= j <= |url| && middle == url[i..j]
    ensures forall k :: j <= k < |url| ==> Blank(url[k])
  {
    TrimEndCutsBlanks(front);
    assert middle == front[..|middle|];
    forall k | j <= k < |url| ensures Blank(url[k]) {
      assert url[k] == front[k - i];
    }
  }

  /** The span kept by trimming starts and ends with a character that is not a blank. */
  lemma TrimmedSpanEnds(url: string, front: string, middle: string, i: int, j: int)
    requires front == [] || !Blank(front[0])
    requires NoTrailingBlank(middle)
    requires 0 <= i <= j <= |url| && front == url[i..] && middle == url[i..j]
    ensures i < j ==> !Blank(url[i]) && !Blank(url[j - 1])
  {
    if i < j {
      assert url[i] == front[0];
      assert url[j - 1] == middle[|middle| - 1];
    }
  }

  /** What `fetch` sends of a URL: a `#` starts the fragment, which stays in the browser. */
  function StripFragment(url: string): (sent: string)
    ensures '#' !in sent && sent <= url
    ensures '#' !in url ==> sent == url
  {
    var i := IndexOf(url, '#');
    if i < 0 then url else url[..i]
  }

  /** `s` cut at every `sep`. */
  function Split(s: string, sep: char): (parts: seq<string>)
    ensures |parts| >= 1
    decreases |s|
  {
    var i := IndexOf(s, sep);
    if i < 0 then [s] else [s[..i]] + Split(s[i + 1..], sep)
  }

  /** The form decoding of a key or a value: `+` reads as a space. */
  function Unplus(s: string): (decoded: string)
    ensures |decoded| == |s|
    ensures '+' !in s ==> decoded == s
  {
    var d := seq(|s|, i requires 0 <= i < |s| => if s[i] == '+' then ' ' else s[i]);
    assert '+' !in s ==> forall i :: 0 <= i < |s| ==> d[i] == s[i];
    d
  }

  /** One parameter as the catalog reads it: the key ends at the first `=`. */
  function Decode(part: string): (p: Param) {
    var i := IndexOf(part, '=');
    if i < 0 then Param(Unplus(part), "") else Param(Unplus(part[..i]), Unplus(part[i + 1..]))
  }

  /** The parameters of the query parts, in order; an empty part (from `?` alone or from
      `&&`) is skipped, as form decoding does. */
  function DecodeAll(parts: seq<string>): (ps: seq<Param>)
    ensures |ps| <= |parts|
  {
    if parts == [] then []
    else if parts[0] == "" then DecodeAll(parts[1..])
    else [Decode(parts[0])] + DecodeAll(parts[1..])
  }

  /** Path and parameters of a request line: the path ends at the first `?`, parameters
      are separated by `&`. */
  function ParseRequest(sent: string): (request: (string, seq<Param>)) {
    var i := IndexOf(sent, '?');
    if i < 0 then (sent, []) else (sent[..i], DecodeAll(Split(sent[i + 1..], '&')))
  }

  /** A URL ending in a bare `?` asks for its path with no parameter. */
  lemma EmptyQueryHasNoParameters(path: string)
    requires '?' !in path
    ensures ParseRequest(path + "?") == (path, [])
  {
    IndexAfter(path, '?', "");
    assert (path + "?")[..|path|] == path;
    assert (path + "?")[|path| + 1..] == "";
  }

  /** Path and parameters of the request the catalog receives for `url`: the parser's
      clean-up comes first, and the fragment is not sent. */
  function ParseUrl(url: string): (request: (string, seq<Param>)) {
    ParseRequest(StripFragment(Sanitize(url)))
  }

  /** A parameter as the catalog reads it when it was sent as `key=value`. */
  function Received(p: Param): (r: Param) {
    Param(Unplus(p.key), Unplus(p.value))
  }

  function ReceivedAll(ps: seq<Param>): (rs: seq<Param>)
    ensures |rs| == |ps|
  {
    if ps == [] then [] else [Received(ps[0])] + ReceivedAll(ps[1..])
  }

  /** Parameters without `+` are read back as they were written. */
  lemma {:induction false} ReceivedWithoutPlus(ps: seq<Param>)
    requires forall k :: 0 <= k < |ps| ==> '+' !in ps[k].key && '+' !in ps[k].value
    ensures ReceivedAll(ps) == ps
  {
    if ps != [] {
      assert '+' !in ps[0].key && '+' !in ps[0].value;
      forall k | 0 <= k < |ps| - 1 ensures '+' !in ps[1..][k].key && '+' !in ps[1..][k].value {
        assert ps[1..][k] == ps[k + 1];
      }
      ReceivedWithoutPlus(ps[1..]);
    }
  }

  /** A string that neither separates parameters (`&`) nor ends the request (`#`) nor
      holds a percent escape (`%`) nor a tab or line break, which the parser removes. */
  predicate Plain(s: string) {
    '&' !in s && '#' !in s && '%' !in s && Unbroken(s)
  }

  /** A base URL without query or fragment that the parser's clean-up leaves as it is. */
  predicate BareBase(path: string) {
    Untrimmed(path) && '?' !in path && '#' !in path
  }

  /** The value that ends the URL does not end in a blank, so nothing is cut from it. */
  predicate LastValueUntrimmed(ps: seq<Param>) {
    ps != [] ==> NoTrailingBlank(ps[|ps| - 1].value)
  }

  /** A parameter written as `key=value` that the catalog reads as one parameter. */
  predicate Unambiguous(p: Param) {
    Plain(p.key) && '=' !in p.key && Plain(p.value)
  }

  lemma IndexAfter(a: string, c: char, b: string)
    requires c !in a
    ensures IndexOf(a + [c] + b, c) == |a|
  {
    assert (a + [c] + b)[..|a|] == a;
    IndexOfUnique(a + [c] + b, c, |a|);
  }

  lemma SplitAt(a: string, sep: char, b: string)
    requires sep !in a
    ensures Split(a + [sep] + b, sep) == [a] + Split(b, sep)
  {
    var s := a + [sep] + b;
    IndexAfter(a, sep, b);
    assert s[..|a|] == a;
    assert s[|a| + 1..] == b;
  }

  lemma DecodeEncode(p: Param)
    requires '=' !in p.key
    ensures Decode(Encode(p)) == Received(p)
  {
    var s := Encode(p);
    assert s == p.key + ['='] + p.value;
    IndexAfter(p.key, '=', p.value);
    assert s[..|p.key|] == p.key;
    assert s[|p.key| + 1..] == p.value;
  }

  /** A query of plain parameters holds no `#`, tab or line break. */
  lemma {:induction false} NoFragmentInQuery(ps: seq<Param>)
    requires ps != []
    requires forall k :: 0 <= k < |ps| ==> Unambiguous(ps[k])
    ensures '#' !in QueryString(ps) && Unbroken(QueryString(ps))
  {
    assert Unambiguous(ps[0]);
    if |ps| > 1 {
      forall k | 0 <= k < |ps| - 1 ensures Unambiguous(ps[1..][k]) {
        assert ps[1..][k] == ps[k + 1];
      }
      NoFragmentInQuery(ps[1..]);
    }
  }

  /** A query ends where its last value ends, or in the `=` before an empty last value. */
  lemma {:induction false} QueryEndsUntrimmed(ps: seq<Param>)
    requires ps != [] && LastValueUntrimmed(ps)
    ensures QueryString(ps) != [] && NoTrailingBlank(QueryString(ps))
  {
    if |ps| == 1 {
      var p := ps[0];
      assert Encode(p) == p.key + "=" + p.value;
      if p.value != [] {
        assert Encode(p)[|Encode(p)| - 1] == p.value[|p.value| - 1];
      }
    } else {
      assert ps[1..][|ps| - 2] == ps[|ps| - 1];
      QueryEndsUntrimmed(ps[1..]);
      var q := QueryString(ps[1..]);
      assert QueryString(ps)[|QueryString(ps)| - 1] == q[|q| - 1];
    }
  }

  lemma {:induction false} QueryStringRoundTrip(ps: seq<Param>)
    requires ps != []
    requires forall k :: 0 <= k < |ps| ==> Unambiguous(ps[k])
    ensures DecodeAll(Split(QueryString(ps), '&')) == ReceivedAll(ps)
  {
    if |ps| == 1 {
      SingleParamRoundTrip(ps[0]);
    } else {
      assert Unambiguous(ps[0]);
      forall k | 0 <= k < |ps| - 1 ensures Unambiguous(ps[1..][k]) {
        assert ps[1..][k] == ps[k + 1];
      }
      QueryStringRoundTrip(ps[1..]);
      ConsParamRoundTrip(ps);
    }
  }

  lemma SingleParamRoundTrip(p: Param)
    requires Unambiguous(p)
    ensures DecodeAll(Split(Encode(p), '&')) == ReceivedAll([p])
  {
    DecodeEncode(p);
    assert '&' !in Encode(p) && Encode(p) != "";
    assert Split(Encode(p), '&') == [Encode(p)];
  }

  lemma ConsParamRoundTrip(ps: seq<Param>)
    requires |ps| > 1 && Unambiguous(ps[0])
    requires DecodeAll(Split(QueryString(ps[1..]), '&')) == ReceivedAll(ps[1..])
    ensures DecodeAll(Split(QueryString(ps), '&')) == ReceivedAll(ps)
  {
    var head := Encode(ps[0]);
    DecodeEncode(ps[0]);
    assert '&' !in head && head != "";
    var q := QueryString(ps[1..]);
    assert QueryString(ps) == head + ['&'] + q;
    SplitAt(head, '&', q);
    DecodeAllCons(head, Split(q, '&'));
  }

  lemma DecodeAllCons(head: string, tail: seq<string>)
    requires head != ""
    ensures DecodeAll([head] + tail) == [Decode(head)] + DecodeAll(tail)
  {
    assert ([head] + tail)[1..] == tail;
  }

  /** A URL built from a bare base URL and unambiguous parameters, the last of which does
      not end in a blank, asks for exactly that path and those parameters, in order, each
      read with `+` as a space. */
  lemma ParseWithQuery(path: string, ps: seq<Param>)
    requires BareBase(path)
    requires forall k :: 0 <= k < |ps| ==> Unambiguous(ps[k])
    requires LastValueUntrimmed(ps)
    ensures ParseUrl(WithQuery(path, ps)) == (path, ReceivedAll(ps))
  {
    WithQueryUntrimmed(path, ps);
    RequestWithQuery(path, ps);
  }

  /** Such a URL is kept whole by the parser's clean-up and has no fragment. */
  lemma WithQueryUntrimmed(path: string, ps: seq<Param>)
    requires BareBase(path)
    requires forall k :: 0 <= k < |ps| ==> Unambiguous(ps[k])
    requires LastValueUntrimmed(ps)
    ensures Untrimmed(WithQuery(path, ps)) && '#' !in WithQuery(path, ps)
  {
    if ps != [] {
      var url := WithQuery(path, ps);
      NoFragmentInQuery(ps);
      QueryEndsUntrimmed(ps);
      var q := QueryString(ps);
      assert url == path + ['?'] + q;
      assert url[|url| - 1] == q[|q| - 1];
    }
  }

  lemma RequestWithQuery(path: string, ps: seq<Param>)
    requires '?' !in path
    requires forall k :: 0 <= k < |ps| ==> Unambiguous(ps[k])
    ensures ParseRequest(WithQuery(path, ps)) == (path, ReceivedAll(ps))
  {
    if ps != [] {
      var url := WithQuery(path, ps);
      assert url == path + ['?'] + QueryString(ps);
      IndexAfter(path, '?', QueryString(ps));
      assert url[..|path|] == path;
      assert url[|path| + 1..] == QueryString(ps);
      QueryStringRoundTrip(ps);
    }
  }

  /** The start-up URL asks for exactly the stored search term and genre, search first,
      as long as neither holds a `&`, a `#`, a `%`, a tab or a line break and the value
      that ends the URL does not end in a blank; a `+` in them is read as a space. */
  lemma StartUrlRoundTrip(searchTerm: Option<string>, selectedGenre: Option<string>)
    requires searchTerm.Some? ==> Plain(searchTerm.value)
    requires selectedGenre.Some? ==> Plain(selectedGenre.value)
    requires Truthy(selectedGenre) ==> NoTrailingBlank(selectedGenre.value)
    requires Truthy(searchTerm) && !Truthy(selectedGenre) ==> NoTrailingBlank(searchTerm.value)
    ensures ParseUrl(WithQuery(Endpoint, StoredParams(searchTerm, selectedGenre))) ==
              (Endpoint, ReceivedAll(StoredParams(searchTerm, selectedGenre)))
    ensures (searchTerm.Some? ==> '+' !in searchTerm.value) &&
            (selectedGenre.Some? ==> '+' !in selectedGenre.value) ==>
              ParseUrl(WithQuery(Endpoint, StoredParams(searchTerm, selectedGenre))) ==
                (Endpoint, StoredParams(searchTerm, selectedGenre))
  {
    EndpointIsPlain();
    var ps := StoredParams(searchTerm, selectedGenre);
    StoredParamsUnambiguous(searchTerm, selectedGenre);
    ParseWithQuery(Endpoint, ps);
  }

  lemma EndpointIsPlain()
    ensures BareBase(Endpoint)
  {
    UrlTextIsBare(Endpoint);
  }

  /** Text made of lower-case letters, `:`, `/` and `.` is a bare base URL. */
  lemma UrlTextIsBare(s: string)
    requires s != []
    requires forall i :: 0 <= i < |s| ==> 'a' <= s[i] <= 'z' || s[i] == ':' || s[i] == '/' || s[i] == '.'
    ensures BareBase(s)
  {
  }

  /** The stored parameters are unambiguous, and read back unchanged when they hold no `+`. */
  lemma StoredParamsUnambiguous(searchTerm: Option<string>, selectedGenre: Option<string>)
    requires searchTerm.Some? ==> Plain(searchTerm.value)
    requires selectedGenre.Some? ==> Plain(selectedGenre.value)
    requires Truthy(selectedGenre) ==> NoTrailingBlank(selectedGenre.value)
    requires Truthy(searchTerm) && !Truthy(selectedGenre) ==> NoTrailingBlank(searchTerm.value)
    ensures forall k :: 0 <= k < |StoredParams(searchTerm, selectedGenre)| ==>
              Unambiguous(StoredParams(searchTerm, selectedGenre)[k])
    ensures LastValueUntrimmed(StoredParams(searchTerm, selectedGenre))
    ensures (searchTerm.Some? ==> '+' !in searchTerm.value) &&
            (selectedGenre.Some? ==> '+' !in selectedGenre.value) ==>
              ReceivedAll(StoredParams(searchTerm, selectedGenre)) == StoredParams(searchTerm, selectedGenre)
  {
    var ps := StoredParams(searchTerm, selectedGenre);
    KeysArePlain();
    if (searchTerm.Some? ==> '+' !in searchTerm.value) &&
       (selectedGenre.Some? ==> '+' !in selectedGenre.value) {
      ReceivedWithoutPlus(ps);
    }
  }

  /** The two keys the page writes are plain words. */
  lemma KeysArePlain()
    ensures Unambiguous(Param("search", "")) && '+' !in "search"
    ensures Unambiguous(Param("topic", "")) && '+' !in "topic"
  {
    KeyIsPlain("search");
    KeyIsPlain("topic");
  }

  /** A key of lower-case letters alone is plain. */
  lemma KeyIsPlain(key: string)
    requires forall i :: 0 <= i < |key| ==> 'a' <= key[i] <= 'z'
    ensures Unambiguous(Param(key, "")) && '+' !in key
  {
  }

  /** The fragment is not sent: whatever follows a `#` does not reach the catalog, for a
      URL and a fragment the parser's clean-up leaves as they are. */
  lemma FragmentIsNotSent(url: string, tail: string)
    requires Untrimmed(url) && '#' !in url
    requires Unbroken(tail) && NoTrailingBlank(tail)
    ensures ParseUrl(url + "#" + tail) == ParseUrl(url)
  {
    var whole := url + "#" + tail;
    if tail != [] {
      assert whole[|whole| - 1] == tail[|tail| - 1];
    }
    assert Untrimmed(whole);
    FragmentCut(url, tail);
  }

  lemma FragmentCut(url: string, tail: string)
    requires '#' !in url
    ensures StripFragment(url + "#" + tail) == url
  {
    IndexAfter(url, '#', tail);
    assert (url + "#" + tail)[..|url|] == url;
  }

  /** Nothing is encoded, so a `#` in the stored search term cuts the start-up request
      short: with `c#` and `fiction` stored the catalog is asked for `search=c` only, and
      the genre is lost. */
  lemma StoredHashDropsTheGenre(term: string, rest: string, genre: string)
    requires Plain(term) && '+' !in term && genre != ""
    requires Unbroken(rest) && Unbroken(genre) && NoTrailingBlank(genre)
    ensures ParseUrl(WithQuery(Endpoint, StoredParams(Some(term + "#" + rest), Some(genre)))) ==
              (Endpoint, [Param("search", term)])
  {
    var ps := [Param("search", term)];
    var short := WithQuery(Endpoint, ps);
    var tail := rest + "&topic=" + genre;
    StoredHashText(term, rest, genre);
    EndpointIsPlain();
    KeysArePlain();
    NoFragmentInQuery(ps);
    assert short == Endpoint + ['?'] + QueryString(ps);
    assert Unbroken(tail) && tail[|tail| - 1] == genre[|genre| - 1];
    var whole := short + "#" + tail;
    assert whole[|whole| - 1] == tail[|tail| - 1];
    assert Untrimmed(whole);
    FragmentCut(short, tail);
    RequestWithQuery(Endpoint, ps);
    ReceivedWithoutPlus(ps);
  }

  lemma StoredHashText(term: string, rest: string, genre: string)
    requires genre != ""
    ensures WithQuery(Endpoint, StoredParams(Some(term + "#" + rest), Some(genre))) ==
              WithQuery(Endpoint, [Param("search", term)]) + "#" + (rest + "&topic=" + genre)
  {
    var ps := [Param("search", term + "#" + rest), Param("topic", genre)];
    assert StoredParams(Some(term + "#" + rest), Some(genre)) == ps;
    assert QueryString(ps) == Encode(ps[0]) + "&" + Encode(ps[1]) by {
      assert ps[1..] == [Param("topic", genre)];
    }
  }

  lemma ReceivedTwo(p: Param, q: Param)
    ensures ReceivedAll([p, q]) == [Received(p), Received(q)]
  {
    assert [p, q][1..] == [q];
    ReceivedOne(q);
  }

  lemma ReceivedOne(p: Param)
    ensures ReceivedAll([p]) == [Received(p)]
  {
    assert [p][1..] == [];
  }

  /** Nothing is encoded: a value holding `&key2=` reads back as two parameters. */
  lemma AmpersandInValueSplitsIt(path: string, key: string, v1: string, key2: string, v2: string)
    requires BareBase(path)
    requires Unambiguous(Param(key, v1)) && Unambiguous(Param(key2, v2)) && NoTrailingBlank(v2)
    ensures ParseUrl(WithQuery(path, [Param(key, v1 + "&" + key2 + "=" + v2)])) ==
              (path, [Received(Param(key, v1)), Received(Param(key2, v2))])
  {
    var two := [Param(key, v1), Param(key2, v2)];
    AmpersandText(path, key, v1, key2, v2);
    ParseWithQuery(path, two);
    ReceivedTwo(two[0], two[1]);
  }

  lemma AmpersandText(path: string, key: string, v1: string, key2: string, v2: string)
    ensures WithQuery(path, [Param(key, v1 + "&" + key2 + "=" + v2)]) ==
              WithQuery(path, [Param(key, v1), Param(key2, v2)])
  {
    var two := [Param(key, v1), Param(key2, v2)];
    assert QueryString(two) == Encode(two[0]) + "&" + Encode(two[1]) by {
      assert two[1..] == [Param(key2, v2)];
    }
  }

  /** Appending to a query-free base URL asks for that one parameter. */
  lemma AppendQueryOnPlainBase(baseUrl: string, key: string, value: string)
    requires BareBase(baseUrl)
    requires Unambiguous(Param(key, value)) && NoTrailingBlank(value)
    ensures ParseUrl(AppendQuery(baseUrl, key, value)) == (baseUrl, [Received(Param(key, value))])
  {
    var ps := [Param(key, value)];
    assert AppendQuery(baseUrl, key, value) == WithQuery(baseUrl, ps);
    ParseWithQuery(baseUrl, ps);
    assert ReceivedAll(ps) == [Received(Param(key, value))];
  }

  /** `ps` with `suffix` added to the value of its last parameter. */
  function ExtendLast(ps: seq<Param>, suffix: string): (extended: seq<Param>)
    requires ps != []
  {
    var last := ps[|ps| - 1];
    ps[..|ps| - 1] + [Param(last.key, last.value + suffix)]
  }

  lemma {:induction false} QueryStringExtendLast(ps: seq<Param>, suffix: string)
    requires ps != []
    ensures QueryString(ps) + suffix == QueryString(ExtendLast(ps, suffix))
  {
    if |ps| > 1 {
      QueryStringExtendLast(ps[1..], suffix);
      assert ExtendLast(ps, suffix)[1..] == ExtendLast(ps[1..], suffix);
    }
  }

  /** Appending `?key=value` to a base URL that already carries a query does not add a
      parameter: the catalog reads the new text as the tail of the last stored value. */
  lemma AppendQueryOnQueriedBase(path: string, ps: seq<Param>, key: string, value: string)
    requires BareBase(path) && ps != []
    requires forall k :: 0 <= k < |ps| ==> Unambiguous(ps[k])
    requires Plain(key) && Plain(value) && NoTrailingBlank(value)
    ensures ParseUrl(AppendQuery(WithQuery(path, ps), key, value)) ==
              (path, ReceivedAll(ExtendLast(ps, "?" + key + "=" + value)))
  {
    var suffix := "?" + key + "=" + value;
    AppendQueryExtendsLast(path, ps, key, value);
    AppendedSuffixIsPlain(key, value);
    ExtendLastUnambiguous(ps, suffix);
    ParseWithQuery(path, ExtendLast(ps, suffix));
  }

  /** The text the template appends to a queried base is the tail of the last value. */
  lemma AppendQueryExtendsLast(path: string, ps: seq<Param>, key: string, value: string)
    requires ps != []
    ensures AppendQuery(WithQuery(path, ps), key, value) ==
              WithQuery(path, ExtendLast(ps, "?" + key + "=" + value))
  {
    var suffix := "?" + key + "=" + value;
    var q := QueryString(ps);
    QueryStringExtendLast(ps, suffix);
    assert AppendQuery(WithQuery(path, ps), key, value) == (path + "?" + q) + suffix;
    assert WithQuery(path, ExtendLast(ps, suffix)) == path + "?" + (q + suffix);
  }

  lemma AppendedSuffixIsPlain(key: string, value: string)
    requires Plain(key) && Plain(value) && NoTrailingBlank(value)
    ensures var suffix := "?" + key + "=" + value;
            Plain(suffix) && suffix != [] && !Blank(suffix[|suffix| - 1])
  {
    var suffix := "?" + key + "=" + value;
    if value != [] {
      assert suffix[|suffix| - 1] == value[|value| - 1];
    }
  }

  /** Extending the last value by a plain suffix keeps the parameters unambiguous, and the
      last value then ends where the suffix ends. */
  lemma ExtendLastUnambiguous(ps: seq<Param>, suffix: string)
    requires ps != [] && Plain(suffix) && suffix != [] && !Blank(suffix[|suffix| - 1])
    requires forall k :: 0 <= k < |ps| ==> Unambiguous(ps[k])
    ensures forall k :: 0 <= k < |ExtendLast(ps, suffix)| ==> Unambiguous(ExtendLast(ps, suffix)[k])
    ensures LastValueUntrimmed(ExtendLast(ps, suffix))
  {
    var ps' := ExtendLast(ps, suffix);
    forall k | 0 <= k < |ps'| ensures Unambiguous(ps'[k]) {
      if k == |ps| - 1 {
        assert ps'[k].value == ps[k].value + suffix;
      } else {
        assert ps'[k] == ps[k];
      }
    }
    var last := ps'[|ps'| - 1].value;
    assert last == ps[|ps| - 1].value + suffix;
    assert last[|last| - 1] == suffix[|suffix| - 1];
  }

  /** Lower-casing keeps a plain input plain, and an input that does not end in a blank
      still does not. */
  lemma ToLowerPlain(s: string)
    requires Plain(s)
    ensures Plain(ToLower(s))
    ensures NoTrailingBlank(s) ==> NoTrailingBlank(ToLower(s))
  {
    ToLowerKeeps(s, '&');
    ToLowerKeeps(s, '#');
    ToLowerKeeps(s, '%');
    ToLowerKeeps(s, '\t');
    ToLowerKeeps(s, '\n');
    ToLowerKeeps(s, '\r');
  }

  /** On a query-free base URL the search callback asks for the lower-cased term. */
  lemma SearchOnPlainBase(baseUrl: string, input: string)
    requires BareBase(baseUrl) && Plain(input) && NoTrailingBlank(input) && input != ""
    ensures ParseUrl(SearchFetchUrl(baseUrl, input)) ==
              (baseUrl, [Param("search", Unplus(ToLower(input)))])
  {
    ToLowerPlain(input);
    AppendQueryOnPlainBase(baseUrl, "search", ToLower(input));
    KeysArePlain();
  }

  /** Nothing is encoded, so a `+` typed into the search box arrives as a space: a search
      for `C++` asks the catalog for `c  `. */
  lemma SearchForCPlusPlus(baseUrl: string)
    requires BareBase(baseUrl)
    ensures ParseUrl(SearchFetchUrl(baseUrl, "C++")) == (baseUrl, [Param("search", "c  ")])
  {
    assert ToLower("C++") == "c++";
    assert Unplus("c++") == "c  ";
    SearchOnPlainBase(baseUrl, "C++");
  }

  /** With a persisted search term, a new search does not replace it: with `dickens`
      stored and `Austen` typed the catalog reads the single term `dickens?search=austen`. */
  lemma SearchAfterStoredSearch(path: string, stored: string, input: string)
    requires BareBase(path) && Plain(stored) && Plain(input) && NoTrailingBlank(input) && input != ""
    ensures ParseUrl(SearchFetchUrl(WithQuery(path, [Param("search", stored)]), input)) ==
              (path, [Param("search", Unplus(stored + "?search=" + ToLower(input)))])
  {
    var term := ToLower(input);
    ToLowerPlain(input);
    AppendSearchOnStoredSearch(path, stored, term);
  }

  lemma AppendSearchOnStoredSearch(path: string, stored: string, term: string)
    requires BareBase(path) && Plain(stored) && Plain(term) && NoTrailingBlank(term)
    ensures ParseUrl(AppendQuery(WithQuery(path, [Param("search", stored)]), "search", term)) ==
              (path, [Param("search", Unplus(stored + "?search=" + term))])
  {
    SearchSuffix(stored, term);
    KeysArePlain();
    AppendOnOneParam(path, "search", stored, term);
  }

  lemma SearchSuffix(stored: string, term: string)
    ensures stored + ("?" + "search" + "=" + term) == stored + "?search=" + term
  {
    assert "?" + "search" + "=" == "?search=";
  }

  lemma AppendOnOneParam(path: string, key: string, stored: string, term: string)
    requires BareBase(path) && Plain(stored) && Plain(term) && NoTrailingBlank(term)
    requires Unambiguous(Param(key, "")) && '+' !in key
    ensures ParseUrl(AppendQuery(WithQuery(path, [Param(key, stored)]), key, term)) ==
              (path, [Param(key, Unplus(stored + ("?" + key + "=" + term)))])
  {
    var ps := [Param(key, stored)];
    var suffix := "?" + key + "=" + term;
    AppendQueryOnQueriedBase(path, ps, key, term);
    assert ExtendLast(ps, suffix) == [Param(key, stored + suffix)];
    ReceivedOne(Param(key, stored + suffix));
  }

  /** Blanks after the value that ends the URL are cut by the parser before the request is
      sent: `?key=value` followed by blanks asks for `key=value`. */
  lemma TrailingBlanksAreCut(baseUrl: string, key: string, value: string, blanks: string)
    requires BareBase(baseUrl) && Unambiguous(Param(key, value)) && NoTrailingBlank(value)
    requires forall i :: 0 <= i < |blanks| ==> Blank(blanks[i])
    ensures ParseUrl(AppendQuery(baseUrl, key, value + blanks)) == (baseUrl, [Received(Param(key, value))])
  {
    var url := AppendQuery(baseUrl, key, value);
    assert AppendQuery(baseUrl, key, value + blanks) == url + blanks;
    assert url == WithQuery(baseUrl, [Param(key, value)]);
    WithQueryUntrimmed(baseUrl, [Param(key, value)]);
    SanitizeBlankTail(url, blanks);
    AppendQueryOnPlainBase(baseUrl, key, value);
  }

  /** The parser's clean-up of a clean URL followed by blanks gives back the clean URL. */
  lemma SanitizeBlankTail(url: string, blanks: string)
    requires Untrimmed(url)
    requires forall i :: 0 <= i < |blanks| ==> Blank(blanks[i])
    ensures Sanitize(url + blanks) == url
  {
    assert (url + blanks)[0] == url[0];
    assert TrimStart(url + blanks) == url + blanks;
    TrimBlankTail(url, blanks);
    RemoveTabsAndNewlinesCleans(url);
  }

  lemma {:induction false} TrimBlankTail(s: string, blanks: string)
    requires forall i :: 0 <= i < |blanks| ==> Blank(blanks[i])
    ensures TrimEnd(s + blanks) == TrimEnd(s)
    decreases |blanks|
  {
    if blanks == [] {
      assert s + blanks == s;
    } else {
      var shorter := blanks[..|blanks| - 1];
      assert (s + blanks)[..|s + blanks| - 1] == s + shorter;
      TrimBlankTail(s, shorter);
    }
  }

  /** Blanks typed at the end of a search are not sent: `Moby ` asks for `moby`. */
  lemma SearchTrailingBlanksAreCut(baseUrl: string, input: string, blanks: string)
    requires BareBase(baseUrl) && Plain(input) && NoTrailingBlank(input) && input + blanks != ""
    requires forall i :: 0 <= i < |blanks| ==> Blank(blanks[i])
    ensures ParseUrl(SearchFetchUrl(baseUrl, input + blanks)) ==
              (baseUrl, [Param("search", Unplus(ToLower(input)))])
  {
    var term := ToLower(input);
    assert ToLower(input + blanks) == term + blanks by {
      var lower := ToLower(input + blanks);
      forall i | 0 <= i < |lower| ensures lower[i] == (term + blanks)[i] {
        if i < |input| {
          assert (input + blanks)[i] == input[i];
        } else {
          assert (input + blanks)[i] == blanks[i - |input|];
        }
      }
    }
    ToLowerPlain(input);
    KeysArePlain();
    TrailingBlanksAreCut(baseUrl, "search", term, blanks);
  }

  /** A search of a single space is truthy, so it is fetched, but the space is cut and the
      catalog is asked for the empty term. */
  lemma SearchOfASpaceIsEmpty(baseUrl: string)
    requires BareBase(baseUrl)
    ensures ParseUrl(SearchFetchUrl(baseUrl, " ")) == (baseUrl, [Param("search", "")])
  {
    assert "" + " " == " ";
    SearchTrailingBlanksAreCut(baseUrl, "", " ");
  }

  /** On a query-free base URL the genre filter asks for that topic alone. */
  lemma GenreOnPlainBase(baseUrl: string, selected: string)
    requires BareBase(baseUrl) && Plain(selected) && NoTrailingBlank(selected) && selected != ""
    ensures GenreFetchUrl(baseUrl, selected).Some?
    ensures ParseUrl(GenreFetchUrl(baseUrl, selected).value) ==
              (baseUrl, [Param("topic", Unplus(selected))])
  {
    AppendQueryOnPlainBase(baseUrl, "topic", selected);
    KeysArePlain();
  }
}
