/**
 * app/flow.py: the address of the similarity backend's collection, the
 * query URLs built on it, and the `data:` URL an image is uploaded as.
 * The HTTP calls themselves are not part of this model.
 */
module Flow {
  import opened Text
  import Base64
  import opened Wrappers

  const Slash: char := '/'

  /** A backend connection as the constructor leaves it: three stripped parts and the URL they make. */
  datatype FlowServer = FlowServer(host: string, contextPath: string, collection: string, url: string)

  /** The constructor: each part loses its leading and trailing `/`, and the URL joins them with `/`. */
  function NewFlowServer(host: string, contextPath: string, collection: string): (f: FlowServer)
    ensures StrippedFrom(f.host, host, Slash)
    ensures StrippedFrom(f.contextPath, contextPath, Slash)
    ensures StrippedFrom(f.collection, collection, Slash)
    ensures f.url == f.host + [Slash] + f.contextPath + [Slash] + f.collection
  {
    var h, p, c := Strip(host, Slash), Strip(contextPath, Slash), Strip(collection, Slash);
    FlowServer(h, p, c, h + [Slash] + p + [Slash] + c)
  }

  /** Building a server again from the parts of a built one gives the same server. */
  lemma NewFlowServerIdempotent(host: string, contextPath: string, collection: string)
    ensures var f := NewFlowServer(host, contextPath, collection);
            NewFlowServer(f.host, f.contextPath, f.collection) == f
  {
    StripIdempotent(host, Slash);
    StripIdempotent(contextPath, Slash);
    StripIdempotent(collection, Slash);
  }

  /**
   * Parts that neither start nor end with `/` are kept whole, whatever `/`
   * they hold inside (the `//` of `http://`), and the URL is just their join.
   */
  lemma UrlOfPlainParts(host: string, contextPath: string, collection: string)
    requires host != [] && host[0] != Slash && host[|host| - 1] != Slash
    requires contextPath != [] && contextPath[0] != Slash && contextPath[|contextPath| - 1] != Slash
    requires collection != [] && collection[0] != Slash && collection[|collection| - 1] != Slash
    ensures NewFlowServer(host, contextPath, collection).url == host + "/" + contextPath + "/" + collection
  {
    StripKeepsInterior(host, Slash);
    StripKeepsInterior(contextPath, Slash);
    StripKeepsInterior(collection, Slash);
  }

  /** The default arguments address `my-collection` under `api/cores` on a local backend. */
  lemma DefaultUrl()
    ensures NewFlowServer("http://localhost:8983", "api/cores", "my-collection").url
         == "http://localhost:8983" + "/" + "api/cores" + "/" + "my-collection"
  {
    UrlOfPlainParts("http://localhost:8983", "api/cores", "my-collection");
  }

  /** `build_query`: the URL, then `/endpoint`, then `?params`. */
  function BuildQuery(f: FlowServer, endpoint: string, params: string): (q: string)
    ensures |q| == |f.url| + |endpoint| + |params| + 2
    ensures q[..|f.url| + 1] == f.url + [Slash]
    ensures q[|f.url| + 1..|f.url| + 1 + |endpoint|] == endpoint
    ensures q[|f.url| + 1 + |endpoint|] == '?'
    ensures q[|f.url| + 2 + |endpoint|..] == params
  {
    f.url + [Slash] + endpoint + ['?'] + params
  }

  /**
   * Endpoint and parameters can be read back from a query: for one server,
   * two queries are equal only when their endpoints and parameters are,
   * as long as no endpoint holds a `?`.
   */
  lemma BuildQueryInjective(f: FlowServer, e1: string, p1: string, e2: string, p2: string)
    requires '?' !in e1 && '?' !in e2
    requires BuildQuery(f, e1, p1) == BuildQuery(f, e2, p2)
    ensures e1 == e2 && p1 == p2
  {
    var q, n := BuildQuery(f, e1, p1), |f.url| + 1;
    assert forall k :: 0 <= k < |e1| ==> q[n + k] == e1[k] by {
      assert q[n..n + |e1|] == e1;
    }
    assert forall k :: 0 <= k < |e2| ==> q[n + k] == e2[k] by {
      assert q[n..n + |e2|] == e2;
    }
    assert q[n + |e1|] == '?' && q[n + |e2|] == '?';
    assert |e1| == |e2|;
  }

  /**
   * The data URI of `img_to_data_uri`: the file extension is the text after
   * the last `.` of the path, and the payload is the Base64 text of the PNG
   * bytes the image was re-encoded to.
   */
  function DataUri(filepath: string, png: seq<Base64.Byte>): (uri: string)
    ensures var ext := AfterLast(filepath, '.');
      && |uri| >= 19 + |ext|
      && uri[..11] == "data:image/"
      && uri[11..11 + |ext|] == ext
      && uri[11 + |ext|..19 + |ext|] == ";base64,"
      && uri[19 + |ext|..] == Base64.Encode(png)
      && Base64.Decode(uri[19 + |ext|..]) == Some(png)
  {
    var payload := Base64.Encode(png);
    Base64.DecodeEncode(png);
    assert Base64.Decode(payload) == Some(png);
    Assemble(AfterLast(filepath, '.'), payload)
  }

  /** The f-string `data:image/{ext};base64,{payload}`, and where its parts sit. */
  function Assemble(ext: string, payload: string): (uri: string)
    ensures |uri| == 19 + |ext| + |payload|
    ensures uri[..11] == "data:image/"
    ensures uri[11..11 + |ext|] == ext
    ensures uri[11 + |ext|..19 + |ext|] == ";base64,"
    ensures uri[19 + |ext|..] == payload
  {
    "data:image/" + ext + ";base64," + payload
  }
}
