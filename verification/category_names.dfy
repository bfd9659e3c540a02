/**
 * Display names for category and country slugs (Helpers/CategoryNames.cs):
 * a fixed table, with a readable fallback for slugs the table does not know.
 */
module CategoryNames {
  import opened Wrappers
  import opened Text

  const Names: map<string, string> := map[
    "hanh-dong" := "Hành Động",
    "phim-hanh-dong" := "Hành Động",
    "hanh-dong-han" := "Hành Động Hàn",
    "tinh-cam" := "Tình Cảm",
    "phim-tinh-cam" := "Tình Cảm",
    "hai-huoc" := "Hài Hước",
    "phim-hai-huoc" := "Hài Hước",
    "kinh-di" := "Kinh Dị",
    "phim-kinh-di" := "Kinh Dị",
    "vo-thuat" := "Võ Thuật",
    "phieu-luu" := "Phiêu Lưu",
    "vien-tuong" := "Viễn Tưởng",
    "phim-vien-tuong" := "Viễn Tưởng",
    "tam-ly" := "Tâm Lý",
    "chinh-kich" := "Chính Kịch",
    "hinh-su" := "Hình Sự",
    "trinh-tham" := "Trinh Thám",
    "hoat-hinh" := "Hoạt Hình",
    "phim-hoat-hinh" := "Hoạt Hình",
    "anime" := "Anime",
    "phim-chieu-rap" := "Chiếu Rạp",
    "chieu-rap" := "Chiếu Rạp",
    "phim-le" := "Phim Lẻ",
    "le" := "Phim Lẻ",
    "phim-bo" := "Phim Bộ",
    "bo" := "Phim Bộ",
    "tai-lieu" := "Tài Liệu",
    "lich-su" := "Lịch Sử",
    "am-nhac" := "Âm Nhạc",
    "thieu-nhi" := "Thiếu Nhi",
    "gia-dinh" := "Gia Đình",
    "the-thao" := "Thể Thao",
    "khoa-hoc" := "Khoa Học",
    "hai-huoc-hanh-dong" := "Hài Hước - Hành Động",
    "phim-kiem-hiep" := "Kiếm Hiệp",
    "kiem-hiep" := "Kiếm Hiệp",
    "phim-tam-ly" := "Tâm Lý",
    "phim-luong-tam" := "Lưỡng Tâm",
    "phim-kinh-dinh" := "Kinh Dị",
    "han-quoc" := "Hàn Quốc",
    "trung-quoc" := "Trung Quốc",
    "nhat-ban" := "Nhật Bản",
    "my" := "Mỹ",
    "viet-nam" := "Việt Nam",
    "hong-kong" := "Hồng Kông",
    "thai-lan" := "Thái Lan",
    "dai-loan" := "Đài Loan",
    "an-do" := "Ấn Độ"
  ]

  /** The table key for a slug: trimmed, then lower-cased. */
  function Key(slug: string): string {
    ToLower(Trim(slug))
  }

  /** A slug the table does not know: dashes become spaces and the first
      character is upper-cased. */
  function Fallback(key: string): (r: string)
    requires key != []
    ensures |r| == |key|
    ensures r[0] == ToUpperChar(if key[0] == '-' then ' ' else key[0])
    ensures forall i :: 1 <= i < |r| ==> r[i] == if key[i] == '-' then ' ' else key[i]
    ensures '-' !in r
  {
    var f := ReplaceChar(key, '-', ' ');
    [ToUpperChar(f[0])] + f[1..]
  }

  /** `CategoryNames.GetDisplayName`. */
  function GetDisplayName(slug: Option<string>): (r: string)
    ensures IsNullOrWhiteSpace(slug) ==> r == ""
    ensures !IsNullOrWhiteSpace(slug) && Key(slug.value) in Names ==> r == Names[Key(slug.value)]
    ensures !IsNullOrWhiteSpace(slug) && Key(slug.value) !in Names ==>
              Key(slug.value) != [] && r == Fallback(Key(slug.value))
  {
    if IsNullOrWhiteSpace(slug) then ""
    else
      var key := Key(slug.value);
      if key in Names then Names[key] else Fallback(key)
  }

  /** A name found neither in the table nor as white space keeps the length of
      the trimmed slug and has no dash. */
  lemma FallbackShape(slug: string)
    requires !AllWhiteSpace(slug) && Key(slug) !in Names
    ensures |GetDisplayName(Some(slug))| == |Trim(slug)| > 0
    ensures '-' !in GetDisplayName(Some(slug))
  {
  }

  /** Two slugs with the same key, both blank or both not, get the same name. */
  lemma SameKeySameName(a: string, b: string)
    requires AllWhiteSpace(a) == AllWhiteSpace(b) && Key(a) == Key(b)
    ensures GetDisplayName(Some(a)) == GetDisplayName(Some(b))
  {
  }

  lemma {:induction false} PaddingKeepsBlank(pre: string, s: string, post: string)
    requires AllWhiteSpace(pre) && AllWhiteSpace(post)
    ensures AllWhiteSpace(pre + s + post) == AllWhiteSpace(s)
  {
    var x := pre + s + post;
    if AllWhiteSpace(s) {
      forall i | 0 <= i < |x| ensures IsWhiteSpace(x[i]) {
        if i < |pre| {
          assert x[i] == pre[i];
        } else if i < |pre| + |s| {
          assert x[i] == s[i - |pre|];
        } else {
          assert x[i] == post[i - |pre| - |s|];
        }
      }
    }
    if AllWhiteSpace(x) {
      forall i | 0 <= i < |s| ensures IsWhiteSpace(s[i]) {
        assert s[i] == x[|pre| + i];
      }
    }
  }

  lemma LowerKeepsBlank(s: string)
    ensures AllWhiteSpace(ToLower(s)) == AllWhiteSpace(s)
  {
    forall i | 0 <= i < |s| {
      LowerKeepsWhiteSpace(s[i]);
    }
  }

  /** The result ignores ASCII case and surrounding white space. */
  lemma {:induction false} IgnoresCaseAndPadding(pre: string, s: string, post: string)
    requires AllWhiteSpace(pre) && AllWhiteSpace(post)
    ensures GetDisplayName(Some(pre + s + post)) == GetDisplayName(Some(ToLower(s)))
  {
    PaddingKeepsBlank(pre, s, post);
    LowerKeepsBlank(s);
    TrimIgnoresPadding(pre, s, post);
    TrimToLowerCommute(s);
    ToLowerIdempotent(Trim(s));
    SameKeySameName(pre + s + post, ToLower(s));
  }
}
