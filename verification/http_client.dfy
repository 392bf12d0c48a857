/**
 * The request text that `HttpClient::get` in net/wasabi/src/http.rs writes
 * to the socket. Name resolution, the connection and the exchange itself
 * are not part of this model.
 */
module HttpClient {
  import opened Text

  /** The request line: method, the path behind a `/`, and the protocol version. */
  function RequestLine(path: string): string
  {
    "GET /" + path + " HTTP/1.1"
  }

  /** The GET request for `path` on `host`, with LF line ends and a closing blank line. */
  function Request(host: string, path: string): string
  {
    RequestLine(path) + "\n" + "Host: " + host + "\n" + "Accept: text/html\n" + "Connection: close\n" + "\n"
  }

  /** The request as `get` grows it, one `push_str` or `push` at a time. */
  method BuildRequest(host: string, path: string) returns (request: string)
    ensures request == Request(host, path)
  {
    request := "GET /";
    request := request + path;
    request := request + " HTTP/1.1\n";
    request := request + "Host: ";
    request := request + host;
    request := request + "\n";
    request := request + "Accept: text/html\n";
    request := request + "Connection: close\n";
    request := request + ['\n'];
  }

  /** The fixed text adds 59 characters to the path and the host. */
  lemma RequestLength(host: string, path: string)
    ensures |Request(host, path)| == 59 + |path| + |host|
  {
  }

  /** The request ends with a blank line. */
  lemma RequestEndsWithBlankLine(host: string, path: string)
    ensures |Request(host, path)| >= 2
    ensures Request(host, path)[|Request(host, path)| - 2..] == "\n\n"
  {
  }

  /**
   * When neither the host nor the path holds a line feed, the request is
   * exactly these lines, in this order: the request line, `Host`, `Accept`,
   * `Connection`, then the blank line.
   */
  lemma RequestLines(host: string, path: string)
    requires '\n' !in host && '\n' !in path
    ensures Split(Request(host, path), '\n')
         == [RequestLine(path), "Host: " + host, "Accept: text/html", "Connection: close", "", ""]
  {
    var lines := [RequestLine(path), "Host: " + host, "Accept: text/html", "Connection: close", "", ""];
    RequestJoin(host, path, lines);
    RequestLinesHaveNoLf(host, path, lines);
    SplitJoin(lines, '\n');
  }

  /** The request is its lines joined with line feeds. */
  lemma RequestJoin(host: string, path: string, lines: seq<string>)
    requires lines == [RequestLine(path), "Host: " + host, "Accept: text/html", "Connection: close", "", ""]
    ensures Join(lines, '\n') == Request(host, path)
  {
    JoinSix(RequestLine(path), "Host: " + host, "Accept: text/html", "Connection: close");
    RequestRegrouped(RequestLine(path), host);
  }

  /** No line of the request holds a line feed of its own. */
  lemma RequestLinesHaveNoLf(host: string, path: string, lines: seq<string>)
    requires '\n' !in host && '\n' !in path
    requires lines == [RequestLine(path), "Host: " + host, "Accept: text/html", "Connection: close", "", ""]
    ensures forall i :: 0 <= i < |lines| ==> '\n' !in lines[i]
  {
    forall i | 0 <= i < |lines|
      ensures '\n' !in lines[i]
    {
      if i == 0 {
        assert '\n' !in RequestLine(path);
      } else if i == 1 {
        assert '\n' !in "Host: " + host;
      } else if i == 2 {
        assert forall k :: 0 <= k < |lines[2]| ==> lines[2][k] != '\n';
      } else if i == 3 {
        assert forall k :: 0 <= k < |lines[3]| ==> lines[3][k] != '\n';
      }
    }
  }

  /** Six lines, the last two empty, joined with line feeds. */
  lemma JoinSix(a: string, b: string, c: string, d: string)
    ensures Join([a, b, c, d, "", ""], '\n') == a + "\n" + b + "\n" + c + "\n" + d + "\n" + "\n"
  {
    var lines := [a, b, c, d, "", ""];
    assert Join(lines[4..], '\n') == "\n" by {
      assert lines[4..][1..] == lines[5..];
    }
    assert Join(lines[3..], '\n') == d + "\n" + "\n" by {
      assert lines[3..][1..] == lines[4..];
    }
    assert Join(lines[2..], '\n') == c + "\n" + d + "\n" + "\n" by {
      assert lines[2..][1..] == lines[3..];
    }
    assert Join(lines[1..], '\n') == b + "\n" + c + "\n" + d + "\n" + "\n" by {
      assert lines[1..][1..] == lines[2..];
    }
  }

  lemma RequestRegrouped(requestLine: string, host: string)
    ensures requestLine + "\n" + "Host: " + host + "\n" + "Accept: text/html\n" + "Connection: close\n" + "\n"
         == requestLine + "\n" + ("Host: " + host) + "\n" + "Accept: text/html" + "\n" + "Connection: close" + "\n" + "\n"
  {
  }

  /**
   * When the path holds no space, the request line splits into exactly three
   * fields: `GET`, the path behind a `/`, and `HTTP/1.1`.
   */
  lemma RequestLineFields(path: string)
    requires ' ' !in path
    ensures Split(RequestLine(path), ' ') == ["GET", "/" + path, "HTTP/1.1"]
  {
    var fields := ["GET", "/" + path, "HTTP/1.1"];
    assert ' ' !in "/" + path;
    assert Join(fields[2..], ' ') == "HTTP/1.1";
    assert Join(fields[1..], ' ') == "/" + path + " HTTP/1.1" by {
      assert fields[1..][1..] == fields[2..];
    }
    assert Join(fields, ' ') == RequestLine(path);
    SplitJoin(fields, ' ');
  }

  /** The path is not normalised: the `/` that the browser passes is doubled. */
  lemma RootPathIsDoubled(host: string)
    ensures Request(host, "/")[..6] == "GET //"
  {
  }
}
