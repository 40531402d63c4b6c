/**
  * The 257 rows of Appendix B of RFC 7541 as the generator script lists them, and the proof that
  * they form a valid code: the code is canonical, so it is enough to check each row against the
  * block of left-aligned values that its length owns.
  */
module HuffmanRfc7541 {
  import opened Prelude
  import opened HuffmanCode
  import opened HuffmanNibbles
  import opened HuffmanCodec
  import opened HuffmanGenerator

  function Rows0(symbol: nat): Row {
    match symbol
    case 0 => Row(0, 0x1ff8, 13)
    case 1 => Row(1, 0x7fffd8, 23)
    case 2 => Row(2, 0xfffffe2, 28)
    case 3 => Row(3, 0xfffffe3, 28)
    case 4 => Row(4, 0xfffffe4, 28)
    case 5 => Row(5, 0xfffffe5, 28)
    case 6 => Row(6, 0xfffffe6, 28)
    case 7 => Row(7, 0xfffffe7, 28)
    case 8 => Row(8, 0xfffffe8, 28)
    case 9 => Row(9, 0xffffea, 24)
    case 10 => Row(10, 0x3ffffffc, 30)
    case 11 => Row(11, 0xfffffe9, 28)
    case 12 => Row(12, 0xfffffea, 28)
    case 13 => Row(13, 0x3ffffffd, 30)
    case 14 => Row(14, 0xfffffeb, 28)
    case _ => Row(15, 0xfffffec, 28)
  }

  function Rows1(symbol: nat): Row {
    match symbol
    case 16 => Row(16, 0xfffffed, 28)
    case 17 => Row(17, 0xfffffee, 28)
    case 18 => Row(18, 0xfffffef, 28)
    case 19 => Row(19, 0xffffff0, 28)
    case 20 => Row(20, 0xffffff1, 28)
    case 21 => Row(21, 0xffffff2, 28)
    case 22 => Row(22, 0x3ffffffe, 30)
    case 23 => Row(23, 0xffffff3, 28)
    case 24 => Row(24, 0xffffff4, 28)
    case 25 => Row(25, 0xffffff5, 28)
    case 26 => Row(26, 0xffffff6, 28)
    case 27 => Row(27, 0xffffff7, 28)
    case 28 => Row(28, 0xffffff8, 28)
    case 29 => Row(29, 0xffffff9, 28)
    case 30 => Row(30, 0xffffffa, 28)
    case _ => Row(31, 0xffffffb, 28)
  }

  function Rows2(symbol: nat): Row {
    match symbol
    case 32 => Row(32, 0x14, 6)
    case 33 => Row(33, 0x3f8, 10)
    case 34 => Row(34, 0x3f9, 10)
    case 35 => Row(35, 0xffa, 12)
    case 36 => Row(36, 0x1ff9, 13)
    case 37 => Row(37, 0x15, 6)
    case 38 => Row(38, 0xf8, 8)
    case 39 => Row(39, 0x7fa, 11)
    case 40 => Row(40, 0x3fa, 10)
    case 41 => Row(41, 0x3fb, 10)
    case 42 => Row(42, 0xf9, 8)
    case 43 => Row(43, 0x7fb, 11)
    case 44 => Row(44, 0xfa, 8)
    case 45 => Row(45, 0x16, 6)
    case 46 => Row(46, 0x17, 6)
    case _ => Row(47, 0x18, 6)
  }

  function Rows3(symbol: nat): Row {
    match symbol
    case 48 => Row(48, 0x0, 5)
    case 49 => Row(49, 0x1, 5)
    case 50 => Row(50, 0x2, 5)
    case 51 => Row(51, 0x19, 6)
    case 52 => Row(52, 0x1a, 6)
    case 53 => Row(53, 0x1b, 6)
    case 54 => Row(54, 0x1c, 6)
    case 55 => Row(55, 0x1d, 6)
    case 56 => Row(56, 0x1e, 6)
    case 57 => Row(57, 0x1f, 6)
    case 58 => Row(58, 0x5c, 7)
    case 59 => Row(59, 0xfb, 8)
    case 60 => Row(60, 0x7ffc, 15)
    case 61 => Row(61, 0x20, 6)
    case 62 => Row(62, 0xffb, 12)
    case _ => Row(63, 0x3fc, 10)
  }

  function Rows4(symbol: nat): Row {
    match symbol
    case 64 => Row(64, 0x1ffa, 13)
    case 65 => Row(65, 0x21, 6)
    case 66 => Row(66, 0x5d, 7)
    case 67 => Row(67, 0x5e, 7)
    case 68 => Row(68, 0x5f, 7)
    case 69 => Row(69, 0x60, 7)
    case 70 => Row(70, 0x61, 7)
    case 71 => Row(71, 0x62, 7)
    case 72 => Row(72, 0x63, 7)
    case 73 => Row(73, 0x64, 7)
    case 74 => Row(74, 0x65, 7)
    case 75 => Row(75, 0x66, 7)
    case 76 => Row(76, 0x67, 7)
    case 77 => Row(77, 0x68, 7)
    case 78 => Row(78, 0x69, 7)
    case _ => Row(79, 0x6a, 7)
  }

  function Rows5(symbol: nat): Row {
    match symbol
    case 80 => Row(80, 0x6b, 7)
    case 81 => Row(81, 0x6c, 7)
    case 82 => Row(82, 0x6d, 7)
    case 83 => Row(83, 0x6e, 7)
    case 84 => Row(84, 0x6f, 7)
    case 85 => Row(85, 0x70, 7)
    case 86 => Row(86, 0x71, 7)
    case 87 => Row(87, 0x72, 7)
    case 88 => Row(88, 0xfc, 8)
    case 89 => Row(89, 0x73, 7)
    case 90 => Row(90, 0xfd, 8)
    case 91 => Row(91, 0x1ffb, 13)
    case 92 => Row(92, 0x7fff0, 19)
    case 93 => Row(93, 0x1ffc, 13)
    case 94 => Row(94, 0x3ffc, 14)
    case _ => Row(95, 0x22, 6)
  }

  function Rows6(symbol: nat): Row {
    match symbol
    case 96 => Row(96, 0x7ffd, 15)
    case 97 => Row(97, 0x3, 5)
    case 98 => Row(98, 0x23, 6)
    case 99 => Row(99, 0x4, 5)
    case 100 => Row(100, 0x24, 6)
    case 101 => Row(101, 0x5, 5)
    case 102 => Row(102, 0x25, 6)
    case 103 => Row(103, 0x26, 6)
    case 104 => Row(104, 0x27, 6)
    case 105 => Row(105, 0x6, 5)
    case 106 => Row(106, 0x74, 7)
    case 107 => Row(107, 0x75, 7)
    case 108 => Row(108, 0x28, 6)
    case 109 => Row(109, 0x29, 6)
    case 110 => Row(110, 0x2a, 6)
    case _ => Row(111, 0x7, 5)
  }

  function Rows7(symbol: nat): Row {
    match symbol
    case 112 => Row(112, 0x2b, 6)
    case 113 => Row(113, 0x76, 7)
    case 114 => Row(114, 0x2c, 6)
    case 115 => Row(115, 0x8, 5)
    case 116 => Row(116, 0x9, 5)
    case 117 => Row(117, 0x2d, 6)
    case 118 => Row(118, 0x77, 7)
    case 119 => Row(119, 0x78, 7)
    case 120 => Row(120, 0x79, 7)
    case 121 => Row(121, 0x7a, 7)
    case 122 => Row(122, 0x7b, 7)
    case 123 => Row(123, 0x7ffe, 15)
    case 124 => Row(124, 0x7fc, 11)
    case 125 => Row(125, 0x3ffd, 14)
    case 126 => Row(126, 0x1ffd, 13)
    case _ => Row(127, 0xffffffc, 28)
  }

  function Rows8(symbol: nat): Row {
    match symbol
    case 128 => Row(128, 0xfffe6, 20)
    case 129 => Row(129, 0x3fffd2, 22)
    case 130 => Row(130, 0xfffe7, 20)
    case 131 => Row(131, 0xfffe8, 20)
    case 132 => Row(132, 0x3fffd3, 22)
    case 133 => Row(133, 0x3fffd4, 22)
    case 134 => Row(134, 0x3fffd5, 22)
    case 135 => Row(135, 0x7fffd9, 23)
    case 136 => Row(136, 0x3fffd6, 22)
    case 137 => Row(137, 0x7fffda, 23)
    case 138 => Row(138, 0x7fffdb, 23)
    case 139 => Row(139, 0x7fffdc, 23)
    case 140 => Row(140, 0x7fffdd, 23)
    case 141 => Row(141, 0x7fffde, 23)
    case 142 => Row(142, 0xffffeb, 24)
    case _ => Row(143, 0x7fffdf, 23)
  }

  function Rows9(symbol: nat): Row {
    match symbol
    case 144 => Row(144, 0xffffec, 24)
    case 145 => Row(145, 0xffffed, 24)
    case 146 => Row(146, 0x3fffd7, 22)
    case 147 => Row(147, 0x7fffe0, 23)
    case 148 => Row(148, 0xffffee, 24)
    case 149 => Row(149, 0x7fffe1, 23)
    case 150 => Row(150, 0x7fffe2, 23)
    case 151 => Row(151, 0x7fffe3, 23)
    case 152 => Row(152, 0x7fffe4, 23)
    case 153 => Row(153, 0x1fffdc, 21)
    case 154 => Row(154, 0x3fffd8, 22)
    case 155 => Row(155, 0x7fffe5, 23)
    case 156 => Row(156, 0x3fffd9, 22)
    case 157 => Row(157, 0x7fffe6, 23)
    case 158 => Row(158, 0x7fffe7, 23)
    case _ => Row(159, 0xffffef, 24)
  }

  function Rows10(symbol: nat): Row {
    match symbol
    case 160 => Row(160, 0x3fffda, 22)
    case 161 => Row(161, 0x1fffdd, 21)
    case 162 => Row(162, 0xfffe9, 20)
    case 163 => Row(163, 0x3fffdb, 22)
    case 164 => Row(164, 0x3fffdc, 22)
    case 165 => Row(165, 0x7fffe8, 23)
    case 166 => Row(166, 0x7fffe9, 23)
    case 167 => Row(167, 0x1fffde, 21)
    case 168 => Row(168, 0x7fffea, 23)
    case 169 => Row(169, 0x3fffdd, 22)
    case 170 => Row(170, 0x3fffde, 22)
    case 171 => Row(171, 0xfffff0, 24)
    case 172 => Row(172, 0x1fffdf, 21)
    case 173 => Row(173, 0x3fffdf, 22)
    case 174 => Row(174, 0x7fffeb, 23)
    case _ => Row(175, 0x7fffec, 23)
  }

  function Rows11(symbol: nat): Row {
    match symbol
    case 176 => Row(176, 0x1fffe0, 21)
    case 177 => Row(177, 0x1fffe1, 21)
    case 178 => Row(178, 0x3fffe0, 22)
    case 179 => Row(179, 0x1fffe2, 21)
    case 180 => Row(180, 0x7fffed, 23)
    case 181 => Row(181, 0x3fffe1, 22)
    case 182 => Row(182, 0x7fffee, 23)
    case 183 => Row(183, 0x7fffef, 23)
    case 184 => Row(184, 0xfffea, 20)
    case 185 => Row(185, 0x3fffe2, 22)
    case 186 => Row(186, 0x3fffe3, 22)
    case 187 => Row(187, 0x3fffe4, 22)
    case 188 => Row(188, 0x7ffff0, 23)
    case 189 => Row(189, 0x3fffe5, 22)
    case 190 => Row(190, 0x3fffe6, 22)
    case _ => Row(191, 0x7ffff1, 23)
  }

  function Rows12(symbol: nat): Row {
    match symbol
    case 192 => Row(192, 0x3ffffe0, 26)
    case 193 => Row(193, 0x3ffffe1, 26)
    case 194 => Row(194, 0xfffeb, 20)
    case 195 => Row(195, 0x7fff1, 19)
    case 196 => Row(196, 0x3fffe7, 22)
    case 197 => Row(197, 0x7ffff2, 23)
    case 198 => Row(198, 0x3fffe8, 22)
    case 199 => Row(199, 0x1ffffec, 25)
    case 200 => Row(200, 0x3ffffe2, 26)
    case 201 => Row(201, 0x3ffffe3, 26)
    case 202 => Row(202, 0x3ffffe4, 26)
    case 203 => Row(203, 0x7ffffde, 27)
    case 204 => Row(204, 0x7ffffdf, 27)
    case 205 => Row(205, 0x3ffffe5, 26)
    case 206 => Row(206, 0xfffff1, 24)
    case _ => Row(207, 0x1ffffed, 25)
  }

  function Rows13(symbol: nat): Row {
    match symbol
    case 208 => Row(208, 0x7fff2, 19)
    case 209 => Row(209, 0x1fffe3, 21)
    case 210 => Row(210, 0x3ffffe6, 26)
    case 211 => Row(211, 0x7ffffe0, 27)
    case 212 => Row(212, 0x7ffffe1, 27)
    case 213 => Row(213, 0x3ffffe7, 26)
    case 214 => Row(214, 0x7ffffe2, 27)
    case 215 => Row(215, 0xfffff2, 24)
    case 216 => Row(216, 0x1fffe4, 21)
    case 217 => Row(217, 0x1fffe5, 21)
    case 218 => Row(218, 0x3ffffe8, 26)
    case 219 => Row(219, 0x3ffffe9, 26)
    case 220 => Row(220, 0xffffffd, 28)
    case 221 => Row(221, 0x7ffffe3, 27)
    case 222 => Row(222, 0x7ffffe4, 27)
    case _ => Row(223, 0x7ffffe5, 27)
  }

  function Rows14(symbol: nat): Row {
    match symbol
    case 224 => Row(224, 0xfffec, 20)
    case 225 => Row(225, 0xfffff3, 24)
    case 226 => Row(226, 0xfffed, 20)
    case 227 => Row(227, 0x1fffe6, 21)
    case 228 => Row(228, 0x3fffe9, 22)
    case 229 => Row(229, 0x1fffe7, 21)
    case 230 => Row(230, 0x1fffe8, 21)
    case 231 => Row(231, 0x7ffff3, 23)
    case 232 => Row(232, 0x3fffea, 22)
    case 233 => Row(233, 0x3fffeb, 22)
    case 234 => Row(234, 0x1ffffee, 25)
    case 235 => Row(235, 0x1ffffef, 25)
    case 236 => Row(236, 0xfffff4, 24)
    case 237 => Row(237, 0xfffff5, 24)
    case 238 => Row(238, 0x3ffffea, 26)
    case _ => Row(239, 0x7ffff4, 23)
  }

  function Rows15(symbol: nat): Row {
    match symbol
    case 240 => Row(240, 0x3ffffeb, 26)
    case 241 => Row(241, 0x7ffffe6, 27)
    case 242 => Row(242, 0x3ffffec, 26)
    case 243 => Row(243, 0x3ffffed, 26)
    case 244 => Row(244, 0x7ffffe7, 27)
    case 245 => Row(245, 0x7ffffe8, 27)
    case 246 => Row(246, 0x7ffffe9, 27)
    case 247 => Row(247, 0x7ffffea, 27)
    case 248 => Row(248, 0x7ffffeb, 27)
    case 249 => Row(249, 0xffffffe, 28)
    case 250 => Row(250, 0x7ffffec, 27)
    case 251 => Row(251, 0x7ffffed, 27)
    case 252 => Row(252, 0x7ffffee, 27)
    case 253 => Row(253, 0x7ffffef, 27)
    case 254 => Row(254, 0x7fffff0, 27)
    case _ => Row(255, 0x3ffffee, 26)
  }

  function RowAt(symbol: nat): Row {
    if symbol < 16 then Rows0(symbol)
    else if symbol < 32 then Rows1(symbol)
    else if symbol < 48 then Rows2(symbol)
    else if symbol < 64 then Rows3(symbol)
    else if symbol < 80 then Rows4(symbol)
    else if symbol < 96 then Rows5(symbol)
    else if symbol < 112 then Rows6(symbol)
    else if symbol < 128 then Rows7(symbol)
    else if symbol < 144 then Rows8(symbol)
    else if symbol < 160 then Rows9(symbol)
    else if symbol < 176 then Rows10(symbol)
    else if symbol < 192 then Rows11(symbol)
    else if symbol < 208 then Rows12(symbol)
    else if symbol < 224 then Rows13(symbol)
    else if symbol < 240 then Rows14(symbol)
    else if symbol < 256 then Rows15(symbol)
    else Row(EOS, 0x3fffffff, 30)
  }

  const HUFFMAN_TABLE: seq<Row> := seq(257, i requires 0 <= i < 257 => RowAt(i))

  // ----- the symbols of each length, in code order -----

  function Symbols5(k: nat): nat {
    match k
    case 0 => 48 case 1 => 49 case 2 => 50 case 3 => 97 case 4 => 99 case 5 => 101 case 6 => 105
    case 7 => 111 case 8 => 115 case _ => 116
  }

  function Symbols6(k: nat): nat {
    match k
    case 0 => 32 case 1 => 37 case 2 => 45 case 3 => 46 case 4 => 47 case 5 => 51 case 6 => 52 case 7 => 53
    case 8 => 54 case 9 => 55 case 10 => 56 case 11 => 57 case 12 => 61 case 13 => 65 case 14 => 95
    case 15 => 98 case 16 => 100 case 17 => 102 case 18 => 103 case 19 => 104 case 20 => 108 case 21 => 109
    case 22 => 110 case 23 => 112 case 24 => 114 case _ => 117
  }

  function Symbols7(k: nat): nat {
    match k
    case 0 => 58 case 1 => 66 case 2 => 67 case 3 => 68 case 4 => 69 case 5 => 70 case 6 => 71 case 7 => 72
    case 8 => 73 case 9 => 74 case 10 => 75 case 11 => 76 case 12 => 77 case 13 => 78 case 14 => 79
    case 15 => 80 case 16 => 81 case 17 => 82 case 18 => 83 case 19 => 84 case 20 => 85 case 21 => 86
    case 22 => 87 case 23 => 89 case 24 => 106 case 25 => 107 case 26 => 113 case 27 => 118 case 28 => 119
    case 29 => 120 case 30 => 121 case _ => 122
  }

  function Symbols8(k: nat): nat {
    match k
    case 0 => 38 case 1 => 42 case 2 => 44 case 3 => 59 case 4 => 88 case _ => 90
  }

  function Symbols10(k: nat): nat {
    match k
    case 0 => 33 case 1 => 34 case 2 => 40 case 3 => 41 case _ => 63
  }

  function Symbols11(k: nat): nat {
    match k
    case 0 => 39 case 1 => 43 case _ => 124
  }

  function Symbols12(k: nat): nat {
    match k
    case 0 => 35 case _ => 62
  }

  function Symbols13(k: nat): nat {
    match k
    case 0 => 0 case 1 => 36 case 2 => 64 case 3 => 91 case 4 => 93 case _ => 126
  }

  function Symbols14(k: nat): nat {
    match k
    case 0 => 94 case _ => 125
  }

  function Symbols15(k: nat): nat {
    match k
    case 0 => 60 case 1 => 96 case _ => 123
  }

  function Symbols19(k: nat): nat {
    match k
    case 0 => 92 case 1 => 195 case _ => 208
  }

  function Symbols20(k: nat): nat {
    match k
    case 0 => 128 case 1 => 130 case 2 => 131 case 3 => 162 case 4 => 184 case 5 => 194 case 6 => 224
    case _ => 226
  }

  function Symbols21(k: nat): nat {
    match k
    case 0 => 153 case 1 => 161 case 2 => 167 case 3 => 172 case 4 => 176 case 5 => 177 case 6 => 179
    case 7 => 209 case 8 => 216 case 9 => 217 case 10 => 227 case 11 => 229 case _ => 230
  }

  function Symbols22(k: nat): nat {
    match k
    case 0 => 129 case 1 => 132 case 2 => 133 case 3 => 134 case 4 => 136 case 5 => 146 case 6 => 154
    case 7 => 156 case 8 => 160 case 9 => 163 case 10 => 164 case 11 => 169 case 12 => 170 case 13 => 173
    case 14 => 178 case 15 => 181 case 16 => 185 case 17 => 186 case 18 => 187 case 19 => 189 case 20 => 190
    case 21 => 196 case 22 => 198 case 23 => 228 case 24 => 232 case _ => 233
  }

  function Symbols23(k: nat): nat {
    match k
    case 0 => 1 case 1 => 135 case 2 => 137 case 3 => 138 case 4 => 139 case 5 => 140 case 6 => 141
    case 7 => 143 case 8 => 147 case 9 => 149 case 10 => 150 case 11 => 151 case 12 => 152 case 13 => 155
    case 14 => 157 case 15 => 158 case 16 => 165 case 17 => 166 case 18 => 168 case 19 => 174 case 20 => 175
    case 21 => 180 case 22 => 182 case 23 => 183 case 24 => 188 case 25 => 191 case 26 => 197 case 27 => 231
    case _ => 239
  }

  function Symbols24(k: nat): nat {
    match k
    case 0 => 9 case 1 => 142 case 2 => 144 case 3 => 145 case 4 => 148 case 5 => 159 case 6 => 171
    case 7 => 206 case 8 => 215 case 9 => 225 case 10 => 236 case _ => 237
  }

  function Symbols25(k: nat): nat {
    match k
    case 0 => 199 case 1 => 207 case 2 => 234 case _ => 235
  }

  function Symbols26(k: nat): nat {
    match k
    case 0 => 192 case 1 => 193 case 2 => 200 case 3 => 201 case 4 => 202 case 5 => 205 case 6 => 210
    case 7 => 213 case 8 => 218 case 9 => 219 case 10 => 238 case 11 => 240 case 12 => 242 case 13 => 243
    case _ => 255
  }

  function Symbols27(k: nat): nat {
    match k
    case 0 => 203 case 1 => 204 case 2 => 211 case 3 => 212 case 4 => 214 case 5 => 221 case 6 => 222
    case 7 => 223 case 8 => 241 case 9 => 244 case 10 => 245 case 11 => 246 case 12 => 247 case 13 => 248
    case 14 => 250 case 15 => 251 case 16 => 252 case 17 => 253 case _ => 254
  }

  function Symbols28(k: nat): nat {
    match k
    case 0 => 2 case 1 => 3 case 2 => 4 case 3 => 5 case 4 => 6 case 5 => 7 case 6 => 8 case 7 => 11
    case 8 => 12 case 9 => 14 case 10 => 15 case 11 => 16 case 12 => 17 case 13 => 18 case 14 => 19
    case 15 => 20 case 16 => 21 case 17 => 23 case 18 => 24 case 19 => 25 case 20 => 26 case 21 => 27
    case 22 => 28 case 23 => 29 case 24 => 30 case 25 => 31 case 26 => 127 case 27 => 220 case _ => 249
  }

  function Symbols30(k: nat): nat {
    match k
    case 0 => 10 case 1 => 13 case 2 => 22 case _ => 256
  }

  function SymbolAt(bits: nat, k: nat): nat {
    match bits
    case 5 => Symbols5(k)
    case 6 => Symbols6(k)
    case 7 => Symbols7(k)
    case 8 => Symbols8(k)
    case 10 => Symbols10(k)
    case 11 => Symbols11(k)
    case 12 => Symbols12(k)
    case 13 => Symbols13(k)
    case 14 => Symbols14(k)
    case 15 => Symbols15(k)
    case 19 => Symbols19(k)
    case 20 => Symbols20(k)
    case 21 => Symbols21(k)
    case 22 => Symbols22(k)
    case 23 => Symbols23(k)
    case 24 => Symbols24(k)
    case 25 => Symbols25(k)
    case 26 => Symbols26(k)
    case 27 => Symbols27(k)
    case 28 => Symbols28(k)
    case _ => Symbols30(k)
  }

  /** How many codes have each length. */
  function Count(bits: nat): nat {
    match bits
    case 5 => 10
    case 6 => 26
    case 7 => 32
    case 8 => 6
    case 10 => 5
    case 11 => 3
    case 12 => 2
    case 13 => 6
    case 14 => 2
    case 15 => 3
    case 19 => 3
    case 20 => 8
    case 21 => 13
    case 22 => 26
    case 23 => 29
    case 24 => 12
    case 25 => 4
    case 26 => 15
    case 27 => 19
    case 28 => 29
    case 30 => 4
    case _ => 0
  }

  /** The first code of each length. */
  function First(bits: nat): nat {
    match bits
    case 6 => 0x14
    case 7 => 0x5c
    case 8 => 0xf8
    case 9 => 0x1fc
    case 10 => 0x3f8
    case 11 => 0x7fa
    case 12 => 0xffa
    case 13 => 0x1ff8
    case 14 => 0x3ffc
    case 15 => 0x7ffc
    case 16 => 0xfffe
    case 17 => 0x1fffc
    case 18 => 0x3fff8
    case 19 => 0x7fff0
    case 20 => 0xfffe6
    case 21 => 0x1fffdc
    case 22 => 0x3fffd2
    case 23 => 0x7fffd8
    case 24 => 0xffffea
    case 25 => 0x1ffffec
    case 26 => 0x3ffffe0
    case 27 => 0x7ffffde
    case 28 => 0xfffffe2
    case 29 => 0x1ffffffe
    case 30 => 0x3ffffffc
    case _ => 0
  }

  /** A row's code, counted from the first code of its length, indexes its symbol in the list. */
  ghost predicate Listed(r: Row) {
    && 5 <= r.bits <= 30
    && 0 <= r.code - First(r.bits) < Count(r.bits)
    && SymbolAt(r.bits, r.code - First(r.bits)) == r.symbol
  }

  lemma Listed0(s: nat)
    requires 0 <= s < 16
    ensures RowAt(s).symbol == s && Listed(RowAt(s))
  {
  }

  lemma Listed1(s: nat)
    requires 16 <= s < 32
    ensures RowAt(s).symbol == s && Listed(RowAt(s))
  {
  }

  lemma Listed2(s: nat)
    requires 32 <= s < 48
    ensures RowAt(s).symbol == s && Listed(RowAt(s))
  {
  }

  lemma Listed3(s: nat)
    requires 48 <= s < 64
    ensures RowAt(s).symbol == s && Listed(RowAt(s))
  {
  }

  lemma Listed4(s: nat)
    requires 64 <= s < 80
    ensures RowAt(s).symbol == s && Listed(RowAt(s))
  {
  }

  lemma Listed5(s: nat)
    requires 80 <= s < 96
    ensures RowAt(s).symbol == s && Listed(RowAt(s))
  {
  }

  lemma Listed6(s: nat)
    requires 96 <= s < 112
    ensures RowAt(s).symbol == s && Listed(RowAt(s))
  {
  }

  lemma Listed7(s: nat)
    requires 112 <= s < 128
    ensures RowAt(s).symbol == s && Listed(RowAt(s))
  {
  }

  lemma Listed8(s: nat)
    requires 128 <= s < 144
    ensures RowAt(s).symbol == s && Listed(RowAt(s))
  {
  }

  lemma Listed9(s: nat)
    requires 144 <= s < 160
    ensures RowAt(s).symbol == s && Listed(RowAt(s))
  {
  }

  lemma Listed10(s: nat)
    requires 160 <= s < 176
    ensures RowAt(s).symbol == s && Listed(RowAt(s))
  {
  }

  lemma Listed11(s: nat)
    requires 176 <= s < 192
    ensures RowAt(s).symbol == s && Listed(RowAt(s))
  {
  }

  lemma Listed12(s: nat)
    requires 192 <= s < 208
    ensures RowAt(s).symbol == s && Listed(RowAt(s))
  {
  }

  lemma Listed13(s: nat)
    requires 208 <= s < 224
    ensures RowAt(s).symbol == s && Listed(RowAt(s))
  {
  }

  lemma Listed14(s: nat)
    requires 224 <= s < 240
    ensures RowAt(s).symbol == s && Listed(RowAt(s))
  {
  }

  lemma Listed15(s: nat)
    requires 240 <= s < 256
    ensures RowAt(s).symbol == s && Listed(RowAt(s))
  {
  }

  lemma AllListed(s: nat)
    requires s < 257
    ensures RowAt(s).symbol == s && Listed(RowAt(s))
  {
    if s < 16 {
      Listed0(s);
    } else if s < 32 {
      Listed1(s);
    } else if s < 48 {
      Listed2(s);
    } else if s < 64 {
      Listed3(s);
    } else if s < 80 {
      Listed4(s);
    } else if s < 96 {
      Listed5(s);
    } else if s < 112 {
      Listed6(s);
    } else if s < 128 {
      Listed7(s);
    } else if s < 144 {
      Listed8(s);
    } else if s < 160 {
      Listed9(s);
    } else if s < 176 {
      Listed10(s);
    } else if s < 192 {
      Listed11(s);
    } else if s < 208 {
      Listed12(s);
    } else if s < 224 {
      Listed13(s);
    } else if s < 240 {
      Listed14(s);
    } else if s < 256 {
      Listed15(s);
    }
  }

  /** The code is canonical: each length starts where the previous one ended, shifted left. */
  lemma Canonical(bits: nat)
    requires 5 <= bits < 30
    ensures First(bits + 1) == 2 * (First(bits) + Count(bits))
  {
  }

  lemma LastLengthIsFull()
    ensures First(30) + Count(30) == Pow2(30)
  {
    Pow2Add(15, 15);
    assert Pow2(15) == 32768;
  }

  lemma {:induction false} Pow2Add(a: nat, b: nat)
    ensures Pow2(a + b) == Pow2(a) * Pow2(b)
  {
    if a > 0 {
      Pow2Add(a - 1, b);
    }
  }

  /** Longer codes start beyond everything a shorter length occupies. */
  lemma {:induction false} LengthsAreApart(bits: nat, d: nat)
    requires 5 <= bits && d > 0 && bits + d <= 30
    ensures First(bits + d) >= (First(bits) + Count(bits)) * Pow2(d)
  {
    hide First, Count, SymbolAt;
    var limit := First(bits) + Count(bits);
    if d == 1 {
      Canonical(bits);
      assert Pow2(1) == 2;
    } else {
      LengthsAreApart(bits, d - 1);
      Canonical(bits + d - 1);
      assert limit * Pow2(d) == limit * (2 * Pow2(d - 1)) == 2 * (limit * Pow2(d - 1));
    }
  }

  lemma {:induction false} LengthFits(bits: nat)
    requires 5 <= bits <= 30
    ensures First(bits) + Count(bits) <= Pow2(bits)
    decreases 30 - bits
  {
    if bits == 30 {
      LastLengthIsFull();
    } else {
      LengthFits(bits + 1);
      Canonical(bits);
    }
  }

  lemma {:induction false} CodeBitsInjective(a: nat, b: nat, n: nat)
    requires a < Pow2(n) && b < Pow2(n) && CodeBits(a, n) == CodeBits(b, n)
    ensures a == b
  {
    if n > 0 {
      assert CodeBits(a, n)[..n - 1] == CodeBits(a / 2, n - 1);
      assert CodeBits(b, n)[..n - 1] == CodeBits(b / 2, n - 1);
      assert CodeBits(a, n)[n - 1] == (a % 2 == 1);
      assert CodeBits(b, n)[n - 1] == (b % 2 == 1);
      CodeBitsInjective(a / 2, b / 2, n - 1);
    }
  }

  lemma QuotientOf(b: nat, unit: nat) returns (high: nat, low: nat)
    requires unit > 0
    ensures b == high * unit + low && low < unit
  {
    high, low := b / unit, b % unit;
  }

  /** A code word that begins another is the quotient of it by a power of two. */
  lemma PrefixIsQuotient(a: nat, m: nat, b: nat, d: nat)
    requires a < Pow2(m) && b < Pow2(m + d) && CodeBits(a, m) <= CodeBits(b, m + d)
    ensures a * Pow2(d) <= b < (a + 1) * Pow2(d)
  {
    hide CodeBits, Pow2;
    var high, low := QuotientOf(b, Pow2(d));
    CodeBitsJoin(high, m, low, d);
    assert CodeBits(b, m + d)[..m] == CodeBits(high, m);
    Pow2Add(m, d);
    MulStrict(Pow2(m) - 1, high, Pow2(d));
    CodeBitsInjective(a, high, m);
  }

  lemma RowsDoNotClash(i: nat, j: nat)
    requires i < 257 && j < 257 && i != j
    ensures !(Path(RowAt(i)) <= Path(RowAt(j)))
  {
    hide RowAt, Path;
    if Path(RowAt(i)) <= Path(RowAt(j)) {
      if RowAt(i).bits == RowAt(j).bits {
        SameLengthDiffers(i, j);
      } else {
        ShorterDoesNotBegin(i, j);
      }
    }
  }

  lemma SameLengthDiffers(i: nat, j: nat)
    requires i < 257 && j < 257 && i != j && RowAt(i).bits == RowAt(j).bits
    ensures Path(RowAt(i)) != Path(RowAt(j))
  {
    hide First, Count, SymbolAt, RowAt, CodeBits, Pow2;
    var r, q := RowAt(i), RowAt(j);
    AllListed(i);
    AllListed(j);
    LengthFits(r.bits);
    if Path(r) == Path(q) {
      CodeBitsInjective(r.code, q.code, r.bits);
    }
  }

  lemma ShorterDoesNotBegin(i: nat, j: nat)
    requires i < 257 && j < 257 && RowAt(i).bits < RowAt(j).bits
    ensures !(Path(RowAt(i)) <= Path(RowAt(j)))
  {
    hide First, Count, SymbolAt, RowAt, CodeBits, Pow2;
    var r, q := RowAt(i), RowAt(j);
    AllListed(i);
    AllListed(j);
    LengthFits(r.bits);
    LengthFits(q.bits);
    if Path(r) <= Path(q) {
      var d := q.bits - r.bits;
      PrefixIsQuotient(r.code, r.bits, q.code, d);
      LengthsAreApart(r.bits, d);
      AtLeast(r.code, First(r.bits) + Count(r.bits), Pow2(d), First(q.bits));
    }
  }

  lemma AtLeast(a: nat, limit: nat, unit: nat, n: int)
    requires a < limit && n >= limit * unit
    ensures n >= (a + 1) * unit
  {
    if a + 1 < limit {
      MulStrict(a + 1, limit, unit);
    }
  }

  /** Every hypothesis of the generic theorems holds of the table. */
  lemma TableIsValid()
    ensures ValidCode(HUFFMAN_TABLE)
  {
    hide First, Count, SymbolAt, RowAt, CodeBits, Pow2, Lookup;
    forall i, j | 0 <= i < |HUFFMAN_TABLE| && 0 <= j < |HUFFMAN_TABLE| && i != j
      ensures !(Path(HUFFMAN_TABLE[i]) <= Path(HUFFMAN_TABLE[j]))
    {
      RowsDoNotClash(i, j);
    }
    forall i | 0 <= i < |HUFFMAN_TABLE|
      ensures 5 <= HUFFMAN_TABLE[i].bits && HUFFMAN_TABLE[i].code < Pow2(HUFFMAN_TABLE[i].bits)
      ensures HUFFMAN_TABLE[i].symbol == i
    {
      AllListed(i);
      LengthFits(HUFFMAN_TABLE[i].bits);
    }
    assert HUFFMAN_TABLE[EOS].symbol == EOS;
    EosCode();
  }

  lemma EosCode()
    ensures Path(RowAt(EOS)) == Ones(EOS_BITS)
  {
    OnesAsCode(30);
    LastLengthIsFull();
  }

  /** The alphabet of the table is 0..256. */
  lemma Alphabet(s: nat)
    ensures s < 257 <==> Lookup(HUFFMAN_TABLE, s).Some?
  {
    hide First, Count, SymbolAt, RowAt, Lookup;
    forall i: nat | i < 257 ensures HUFFMAN_TABLE[i].symbol == i {
      AllListed(i);
    }
    assert s < 257 ==> HUFFMAN_TABLE[s].symbol == s;
  }

  lemma RootIsFresh()
    ensures [] in BuildTrie(HUFFMAN_TABLE) && BuildTrie(HUFFMAN_TABLE)[[]] == FRESH
  {
    TableIsValid();
    BuildRepresents(HUFFMAN_TABLE);
  }

  /**
    * The whole chain on the real table: generate, encode, decode. A text comes back exactly when
    * all its characters are byte values.
    */
  method Run(text: seq<nat>) returns (bytes: seq<byte>, decoded: seq<nat>, ok: bool)
    ensures IsEncoding(HUFFMAN_TABLE, text, bytes)
    ensures ok && decoded == text <==> forall i :: 0 <= i < |text| ==> text[i] < 256
  {
    hide RowAt, Path, BuildTrie, Represents, TableFor, WellShaped, TableDecode, PrefixFree, Lookup, IsEncoding;
    TableIsValid();
    RootIsFresh();
    var trie := BuildLinkedTrie(HUFFMAN_TABLE);
    var table, states, accepting, paths := GenerateDecodeTable(trie);
    bytes := Encode(HUFFMAN_TABLE, text);
    RoundTripIff(HUFFMAN_TABLE, table, accepting, paths, text, bytes);
    decoded, ok := Decode(table, accepting, bytes);
    forall i | 0 <= i < |text|
      ensures text[i] < 256 <==> text[i] != EOS && Lookup(HUFFMAN_TABLE, text[i]).Some?
    {
      Alphabet(text[i]);
    }
  }
}
