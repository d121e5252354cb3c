/** Optional values, for absent form fields, failed lookups and unparsable paths. */
module Options {
  datatype Option<+T> = None | Some(value: T)
}

/**
 * The places the blog redirects to: the listing at `/` and a post's page at
 * `/posts/<id>`, the id written in decimal as a template literal prints it and
 * read back as the `:id` route parameter is.
 */
module Routes {
  import opened Options

  datatype Location = Home | PostPage(id: nat)

  predicate IsDigit(c: char) {
    '0' <= c <= '9'
  }

  predicate AllDigits(s: string) {
    forall i :: 0 <= i < |s| ==> IsDigit(s[i])
  }

  function DigitChar(d: nat): (c: char)
    requires d < 10
    ensures IsDigit(c) && c as int - '0' as int == d
  {
    ('0' as int + d) as char
  }

  /** The decimal numeral of `n`, as string interpolation writes a non-negative integer. */
  function Decimal(n: nat): (r: string)
    ensures r != [] && AllDigits(r)
  {
    if n < 10 then [DigitChar(n)] else Decimal(n / 10) + [DigitChar(n % 10)]
  }

  /** The value of a string of decimal digits, as `Number(s)` reads it. */
  function ParseDecimal(s: string): nat
    requires AllDigits(s)
  {
    if s == [] then 0
    else
      assert IsDigit(s[|s| - 1]);
      ParseDecimal(s[..|s| - 1]) * 10 + (s[|s| - 1] as int - '0' as int)
  }

  /** Reading back the numeral of an id gives the id. */
  lemma {:induction false} ParseDecimalOfDecimal(n: nat)
    ensures ParseDecimal(Decimal(n)) == n
  {
    if n >= 10 {
      var d := Decimal(n / 10);
      var s := d + [DigitChar(n % 10)];
      assert s[..|s| - 1] == d;
      ParseDecimalOfDecimal(n / 10);
    }
  }

  const PostsPrefix: string := "/posts/"

  /** The path a redirect to `l` sends the client to: the root, or the post's page. */
  function Href(l: Location): string {
    match l
    case Home => "/"
    case PostPage(id) => PostsPrefix + Decimal(id)
  }

  /** The route a path selects, for the two paths the app redirects to. */
  function ParseLocation(path: string): Option<Location> {
    if path == "/" then Some(Home)
    else if |path| > |PostsPrefix| && path[..|PostsPrefix|] == PostsPrefix && AllDigits(path[|PostsPrefix|..]) then
      Some(PostPage(ParseDecimal(path[|PostsPrefix|..])))
    else None
  }

  /** Following a redirect lands on the route it was meant for. */
  lemma ParseHref(l: Location)
    ensures ParseLocation(Href(l)) == Some(l)
  {
    if l.PostPage? {
      var p := Href(l);
      assert p[..|PostsPrefix|] == PostsPrefix && p[|PostsPrefix|..] == Decimal(l.id);
      assert p != "/" by {
        assert |p| > 1;
      }
      ParseDecimalOfDecimal(l.id);
    }
  }

  /** Distinct locations have distinct paths. */
  lemma HrefInjective(a: Location, b: Location)
    ensures Href(a) == Href(b) <==> a == b
  {
    if Href(a) == Href(b) {
      ParseHref(a);
      ParseHref(b);
    }
  }
}
