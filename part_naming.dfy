/** The names a module download uses: the zero-padded part index, the remote
    part name, the local temporary part path, the final module path and the
    request URLs with their query strings. */
module PartNaming {
  import opened Text

  /** `path.join` and `urljoin`, taken as joining with one `/`. */
  function Join(dir: string, name: string): string {
    dir + "/" + name
  }

  /** The index string of 0-based part `i`: `(i + 1)` in decimal, left-padded
      with `0` to the digit width of `numParts`. */
  function PartIndexString(i: nat, numParts: nat): string {
    PadStart(Decimal(i + 1), |Decimal(numParts)|, '0')
  }

  /** For every part of the plan, the index string has the digit width of the
      part count and reads back as `i + 1`. */
  lemma PartIndexStringShape(i: nat, numParts: nat)
    requires i < numParts
    ensures |PartIndexString(i, numParts)| == |Decimal(numParts)|
    ensures AllDigits(PartIndexString(i, numParts))
    ensures DigitsValue(PartIndexString(i, numParts)) == i + 1
  {
    DecimalWidthMonotone(i + 1, numParts);
    PadStartZerosValue(Decimal(i + 1), |Decimal(numParts)|);
    DecimalValue(i + 1);
  }

  /** Every index string of the plan is as wide as the part count. */
  lemma PartIndexStringWidth(i: nat, numParts: nat)
    requires i < numParts
    ensures |PartIndexString(i, numParts)| == |Decimal(numParts)|
  {
    DecimalWidthMonotone(i + 1, numParts);
  }

  /** Two parts of one plan never share an index string. */
  lemma PartIndexStringInjective(i: nat, j: nat, numParts: nat)
    requires i < numParts && j < numParts
    requires PartIndexString(i, numParts) == PartIndexString(j, numParts)
    ensures i == j
  {
    PartIndexStringShape(i, numParts);
    PartIndexStringShape(j, numParts);
  }

  /** Twelve parts, 0-based index 3: the index string is `04`. */
  lemma PartIndexStringTwelve()
    ensures PartIndexString(3, 12) == "04"
  {
    assert Decimal(12) == "12";
    assert Decimal(4) == "4";
  }

  function ZipFileName(name: string): string {
    name + ".zip"
  }

  /** The remote name of a part: `<name>.zip.sf-part<idx>`. */
  function PartFileName(name: string, partIndexString: string): string {
    ZipFileName(name) + ".sf-part" + partIndexString
  }

  /** Where the module's zip ends up: `<destDir>/<name>.zip`. */
  function ModuleFilePath(destDir: string, name: string): string {
    Join(destDir, ZipFileName(name))
  }

  /** Where a part is downloaded to and merged from: `<destDir>/<name>.zip.fg-tmp<idx>`. */
  function TempPartPath(destDir: string, name: string, partIndexString: string): string {
    Join(destDir, ZipFileName(name) + ".fg-tmp" + partIndexString)
  }

  /** Distinct parts of one plan have distinct temporary paths. */
  lemma TempPartPathsDistinct(destDir: string, name: string, i: nat, j: nat, numParts: nat)
    requires i < numParts && j < numParts && i != j
    ensures TempPartPath(destDir, name, PartIndexString(i, numParts))
         != TempPartPath(destDir, name, PartIndexString(j, numParts))
  {
    var a := PartIndexString(i, numParts);
    var b := PartIndexString(j, numParts);
    PartIndexStringWidth(i, numParts);
    PartIndexStringWidth(j, numParts);
    if TempPartPath(destDir, name, a) == TempPartPath(destDir, name, b) {
      TempPartPathInjective(destDir, name, a, b);
      PartIndexStringInjective(i, j, numParts);
    }
  }

  /** Index strings of one width give the same temporary path only when equal. */
  lemma TempPartPathInjective(destDir: string, name: string, a: string, b: string)
    requires |a| == |b| && TempPartPath(destDir, name, a) == TempPartPath(destDir, name, b)
    ensures a == b
  {
    var p := destDir + "/" + (ZipFileName(name) + ".fg-tmp");
    assert TempPartPath(destDir, name, a) == p + a;
    assert TempPartPath(destDir, name, b) == p + b;
    SamePrefixCancels(p, a, b);
  }

  /** No temporary part path is the final module path. */
  lemma TempPartPathIsNotModuleFile(destDir: string, name: string, partIndexString: string)
    ensures TempPartPath(destDir, name, partIndexString) != ModuleFilePath(destDir, name)
  {
    assert |TempPartPath(destDir, name, partIndexString)| > |ModuleFilePath(destDir, name)|;
  }

  /** `?moduleHash=<8 chars>&fullHash=<8 chars>`. */
  function HashQuery(moduleHash: string, fullHash: string): string {
    "?moduleHash=" + Prefix(moduleHash, 8) + "&fullHash=" + Prefix(fullHash, 8)
  }

  /** The retry marker, present only on a caller-level retry. */
  function RetrySuffix(retryCount: nat): (r: string)
    ensures r == [] <==> retryCount == 0
  {
    if retryCount != 0 then "&retry=" + Decimal(retryCount) else ""
  }

  /** The URL of the whole module file. */
  function ModuleFileUrl(baseUrl: string, name: string, moduleHash: string, fullHash: string, retryCount: nat): string {
    Join(baseUrl, ZipFileName(name)) + HashQuery(moduleHash, fullHash) + RetrySuffix(retryCount)
  }

  /** The URL of 0-based part `i` of `numParts`. */
  function PartUrl(baseUrl: string, name: string, moduleHash: string, fullHash: string,
                   i: nat, numParts: nat, retryCount: nat): string
  {
    Join(baseUrl, PartFileName(name, PartIndexString(i, numParts)))
      + HashQuery(moduleHash, fullHash) + "&partIndex=" + Decimal(i) + RetrySuffix(retryCount)
  }

  /** A retry only appends `&retry=<n>` to the first attempt's URL, for the
      whole file and for each part alike. */
  lemma RetryOnlyAppendsMarker(baseUrl: string, name: string, moduleHash: string, fullHash: string,
                               i: nat, numParts: nat, retryCount: nat)
    requires retryCount != 0
    ensures ModuleFileUrl(baseUrl, name, moduleHash, fullHash, retryCount)
         == ModuleFileUrl(baseUrl, name, moduleHash, fullHash, 0) + "&retry=" + Decimal(retryCount)
    ensures PartUrl(baseUrl, name, moduleHash, fullHash, i, numParts, retryCount)
         == PartUrl(baseUrl, name, moduleHash, fullHash, i, numParts, 0) + "&retry=" + Decimal(retryCount)
  {
    RetryMarkerAppends(Join(baseUrl, ZipFileName(name)) + HashQuery(moduleHash, fullHash), retryCount);
    RetryMarkerAppends(Join(baseUrl, PartFileName(name, PartIndexString(i, numParts)))
      + HashQuery(moduleHash, fullHash) + "&partIndex=" + Decimal(i), retryCount);
  }

  lemma RetryMarkerAppends(url: string, retryCount: nat)
    ensures url + RetrySuffix(0) == url
    ensures retryCount != 0 ==> url + RetrySuffix(retryCount) == url + "&retry=" + Decimal(retryCount)
  {
    assert url + [] == url;
    if retryCount != 0 {
      assert url + ("&retry=" + Decimal(retryCount)) == url + "&retry=" + Decimal(retryCount);
    }
  }

  /** No `&` in `h`: what hexadecimal hashes guarantee. */
  predicate NoAmpersand(h: string) {
    forall k :: 0 <= k < |h| ==> h[k] != '&'
  }

  /** Where the two hash prefixes sit in the query string: the module hash
      prefix runs from position 12 up to the first `&` after it. */
  lemma HashQueryLayout(m: string, f: string)
    requires NoAmpersand(m)
    ensures var q := "?moduleHash=" + m + "&fullHash=" + f;
      && |q| == 22 + |m| + |f|
      && q[12..12 + |m|] == m
      && (forall k :: 12 <= k < 12 + |m| ==> q[k] != '&')
      && q[12 + |m|] == '&'
      && q[22 + |m|..] == f
  {
  }

  /** The query tells module versions apart by their hash prefixes: two
      queries are equal exactly when the first eight characters of both
      hashes agree (all of a hash shorter than eight). */
  lemma HashQueryDistinguishes(a: string, b: string, c: string, d: string)
    requires NoAmpersand(a) && NoAmpersand(c)
    ensures HashQuery(a, b) == HashQuery(c, d) <==> Prefix(a, 8) == Prefix(c, 8) && Prefix(b, 8) == Prefix(d, 8)
  {
    var m, f := Prefix(a, 8), Prefix(b, 8);
    var m', f' := Prefix(c, 8), Prefix(d, 8);
    if HashQuery(a, b) == HashQuery(c, d) {
      assert forall k :: 0 <= k < |m| ==> m[k] == a[k];
      assert forall k :: 0 <= k < |m'| ==> m'[k] == c[k];
      HashQueryLayout(m, f);
      HashQueryLayout(m', f');
      assert |m| == |m'|;
    }
  }

  /** Twelve parts, 0-based index 3, first attempt: the remote name ends in
      `sf-part04`, the query ends in `partIndex=3`, the temporary file in `fg-tmp04`. */
  lemma PartNamesTwelve(baseUrl: string, name: string, moduleHash: string, fullHash: string, destDir: string)
    ensures PartFileName(name, PartIndexString(3, 12)) == name + ".zip.sf-part04"
    ensures PartUrl(baseUrl, name, moduleHash, fullHash, 3, 12, 0)
         == baseUrl + "/" + name + ".zip.sf-part04" + HashQuery(moduleHash, fullHash) + "&partIndex=3"
    ensures TempPartPath(destDir, name, PartIndexString(3, 12)) == destDir + "/" + name + ".zip.fg-tmp04"
  {
    PartIndexStringTwelve();
    assert Decimal(3) == "3";
    var remote := name + ".zip.sf-part04";
    assert ".zip" + ".sf-part" + "04" == ".zip.sf-part04";
    assert PartFileName(name, "04") == remote;
    assert Join(baseUrl, remote) == baseUrl + "/" + remote;
    assert ".zip" + ".fg-tmp" + "04" == ".zip.fg-tmp04";
    assert TempPartPath(destDir, name, "04") == destDir + "/" + (name + ".zip.fg-tmp04");
  }
}
